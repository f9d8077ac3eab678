/** The room that a chunk can have without moving, and what becomes of the part that is not needed. */
module HeapRoom {
  import opened Sequences
  import opened HeapLayout
  import opened HeapSteps
  import opened HeapMerge
  import opened HeapSplit

  /** Where the free chunks that begin at e end. */
  ghost function Reach(v: View, e: int): (r: int)
    requires Good(v) && (e == v.usage || e in v.chunks)
    ensures e <= r <= v.usage && (r == v.usage || (r in v.chunks && IsChunk(v.mem, r) && v.mem[r].inUse))
    decreases v.usage - e
  {
    if e == v.usage then e
    else
      ChunkFacts(v, e);
      if v.mem[e].inUse then e else Reach(v, End(v.mem, e))
  }

  /** The bytes between the header of c and the next chunk in use, or the end of the footprint. */
  ghost function Room(v: View, c: int): (r: int)
    requires Good(v) && c in v.chunks
  {
    ChunkFacts(v, c);
    Reach(v, End(v.mem, c)) - c - HDR
  }

  /** Chunk c has been given `size` of `room` bytes; what is left over by more than a header is handed back. */
  ghost predicate CutTo(v: View, w: View, c: int, room: int, size: nat) {
    && IsChunk(w.mem, c)
    && var n := c + HDR + size;
    if room <= size + HDR then w.mem[c].size == room && w.usage == v.usage
    else
      && w.mem[c].size == size
      && if c + HDR + room == v.usage then w.usage == n
         else w.usage == v.usage && |w.free| > 0 && w.free[0] == n && IsChunk(w.mem, n) && w.mem[n].size == room - size - HDR
  }

  /** Can the object of c get `size` bytes without moving? */
  ghost predicate Fits(v: View, c: int, size: nat)
    requires Good(v) && c in v.chunks
  {
    ChunkFacts(v, c);
    size <= v.mem[c].size || (if End(v.mem, c) == v.usage then c + HDR + size <= |v.mem| else size <= Room(v, c))
  }

  /** How it gets them: by cutting, at the end of the footprint, or from the free chunks behind it. */
  ghost predicate InPlace(v: View, w: View, c: int, size: nat)
    requires Good(v) && c in v.chunks
  {
    ChunkFacts(v, c);
    if size <= v.mem[c].size then CutTo(v, w, c, v.mem[c].size, size) && (v.mem[c].size <= size + HDR ==> w == v)
    else if End(v.mem, c) == v.usage then IsChunk(w.mem, c) && w.mem[c].size == size && w.usage == c + HDR + size && w.free == v.free
    else CutTo(v, w, c, Room(v, c), size)
  }

  /** Coalescing stops where the free chunks end. */
  lemma {:induction false} AbsorbedReach(v: View, u: View, c: int, e: int)
    requires Good(v) && c in v.chunks && Absorbed(v, u, c) && Closed(u, c)
    requires IsChunk(u.mem, c) && c < e <= End(u.mem, c) && (e == v.usage || e in v.chunks)
    ensures Reach(v, e) == End(u.mem, c)
    decreases v.usage - e
  {
    ChunkFacts(u, c);
    if e != v.usage {
      ChunkFacts(v, e);
      AbsorbedInside(v, u, c, e);
      if !v.mem[e].inUse { AbsorbedReach(v, u, c, End(v.mem, e)); }
    }
  }

  lemma AbsorbedInside(v: View, u: View, c: int, e: int)
    requires Good(v) && c in v.chunks && Absorbed(v, u, c) && Closed(u, c)
    requires IsChunk(u.mem, c) && c < e <= End(u.mem, c) && e in v.chunks && IsChunk(v.mem, e)
    ensures v.mem[e].inUse <==> e == End(u.mem, c)
    ensures !v.mem[e].inUse ==> e < End(v.mem, e) <= End(u.mem, c)
  {
  }

  lemma CoalescedRoom(v: View, u: View, c: int)
    requires Good(v) && c in v.chunks && Absorbed(v, u, c) && Closed(u, c)
    ensures IsChunk(u.mem, c) && u.mem[c].size == Room(v, c) && u.usage == v.usage
  {
    ChunkFacts(v, c);
    ChunkFacts(u, c);
    hide Tiled, FreeExact, Linked;
    AbsorbedReach(v, u, c, End(v.mem, c));
  }

  lemma CutAfter(v: View, u: View, w: View, c: int, size: nat)
    requires Good(u) && c in Live(u) && SplitOff(u, w, c, size) && u.usage == v.usage
    ensures IsChunk(u.mem, c) && CutTo(v, w, c, u.mem[c].size, size)
  {
    ChunkFacts(u, c);
    ChunkFacts(w, c);
    hide Tiled, FreeExact, Linked, KeepsOthers;
    if size + HDR < u.mem[c].size && End(u.mem, c) != u.usage { ChunkFacts(w, c + HDR + size); }
  }
}
