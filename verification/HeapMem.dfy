/** os/lib/heapmem.c: the allocator over its arena, with the free list threaded through the chunk headers. */
module HeapMem {
  import opened Sequences
  import opened HeapLayout
  import opened HeapSteps
  import opened HeapMerge
  import opened HeapSplit
  import opened HeapObjects
  import opened HeapRoom
  import opened HeapClient
  import opened HeapStats

  class Heap {
    const mem: array<Cell>
    var heapUsage: int
    var freeList: int
    ghost var chunks: set<int>
    ghost var free: seq<int>

    ghost function Snap(): View
      reads this, mem
    {
      View(mem[..], heapUsage, freeList, chunks, free)
    }

    ghost predicate Valid()
      reads this, mem
    {
      Good(Snap())
    }

    constructor (arenaSize: nat)
      ensures Valid() && fresh(mem) && mem.Length == arenaSize
      ensures Live(Snap()) == {} && Store() == map[]
    {
      mem := new Cell[arenaSize](_ => Byte(0));
      heapUsage, freeList := 0, NULL;
      chunks, free := {}, [];
    }

    /** Marks a chunk as in use and takes it off the free list, where it stands at position k. */
    method AllocateChunk(c: int, ghost k: int)
      requires Linked(mem[..], freeList, free)
      requires 0 <= k < |free| && free[k] == c
      modifies this`freeList, this`free, mem
      ensures Linked(mem[..], freeList, free)
      ensures free == Without(old(free), k)
      ensures Unlinked(old(mem[..]), mem[..], old(free), k)
    {
      hide Linked, Unlinked;
      ghost var f, m, head := free, mem[..], freeList;
      free := Without(f, k);
      EntryFacts(m, head, f, k);
      mem[c] := mem[c].(inUse := true);
      ghost var m1 := mem[..];
      if c == freeList {
        freeList := mem[c].next;
        if freeList != NULL {
          mem[freeList] := mem[freeList].(prev := NULL);
        }
      } else {
        mem[mem[c].prev] := mem[mem[c].prev].(next := mem[c].next);
      }
      ghost var m2 := if k == 0 then m1 else mem[..];
      if mem[c].next != NULL {
        mem[mem[c].next] := mem[mem[c].next].(prev := mem[c].prev);
      }
      UnlinkWrites(m, m1, m2, mem[..], head, f, k);
      UnlinkKeepsLinked(m, mem[..], head, f, k);
    }

    /** Clears the flag, then either gives the last chunk back to the unused space or pushes the chunk on the list. */
    method FreeChunk(c: int)
      requires Linked(mem[..], freeList, free)
      requires IsChunk(mem[..], c) && c !in free
      modifies this`freeList, this`free, this`heapUsage, mem
      ensures Linked(mem[..], freeList, free)
      ensures old(End(mem[..], c) == heapUsage) ==>
        && heapUsage == c && free == old(free) && freeList == old(freeList)
        && mem[..] == old(mem[..][c := mem[c].(inUse := false)])
      ensures old(End(mem[..], c) != heapUsage) ==>
        && heapUsage == old(heapUsage) && free == [c] + old(free) 
        && (old(freeList) != NULL ==> old(freeList) in old(free))
        && Pushed(old(mem[..]), mem[..], old(freeList), c)
    {
      ghost var f, m := free, mem[..];
      if |f| > 0 { assert f[0] in f; }
      mem[c] := mem[c].(inUse := false);
      if c + HDR + mem[c].size == heapUsage {
        heapUsage := heapUsage - (HDR + mem[c].size);
        forall i | 0 <= i < |f| ensures LinkAt(mem[..], f, i) { assert LinkAt(m, f, i) && f[i] in f; }
      } else {
        mem[c] := mem[c].(prev := NULL);
        mem[c] := mem[c].(next := freeList);
        if freeList != NULL {
          mem[freeList] := mem[freeList].(prev := c);
        }
        freeList := c;
        free := [c] + f;
        PushKeepsLinked(m, mem[..], old(freeList), f, c);
      }
    }

    /** Absorbs into c every free chunk that directly follows it. */
    method CoalesceChunks(c: int)
      requires Valid() && c in chunks
      modifies this`freeList, this`free, this`chunks, mem
      ensures Valid() && Absorbed(old(Snap()), Snap(), c)
      ensures Closed(Snap(), c)
    {
      hide Good, Linked, Absorbed, AllChunks, Unlinked, Aligned;
      ghost var v := Snap();
      AbsorbedRefl(v, c);
      ChunkFacts(v, c);
      var next := c + HDR + mem[c].size;
      if next < heapUsage { ChunkFacts(v, next); }
      while next < heapUsage && !mem[next].inUse
        invariant Absorbed(v, Snap(), c) && IsChunk(mem[..], c) && EndsWell(mem[..], heapUsage, chunks, c)
        invariant next == End(mem[..], c) && (next < heapUsage ==> IsChunk(mem[..], next))
        decreases heapUsage - next
      {
        ghost var u := Snap();
        AbsorbedFacts(v, u, c);
        ChunkFacts(u, c);
        ChunkFacts(u, next);
        ghost var k :| 0 <= k < |free| && free[k] == next;
        mem[c] := mem[c].(size := mem[c].size + HDR + mem[next].size);
        assert mem[..] == Grown(u.mem, c);
        GrownLinked(u, c);
        AllocateChunk(next, k);
        chunks := chunks - {next};
        MergeStep(v, u, Snap(), c, k);
        next := next + HDR + mem[next].size;
        AbsorbedFacts(v, Snap(), c);
        ChunkFacts(Snap(), c);
        if next < heapUsage { ChunkFacts(Snap(), next); }
      }
      AbsorbedFacts(v, Snap(), c);
      if next != heapUsage { ChunkFacts(Snap(), next); }
    }

    /** Writes a header over raw bytes. Its list pointers are whatever the bytes happened to be. */
    method FormHeader(o: int, size: nat, inUse: bool)
      requires 0 <= o && o + HDR <= mem.Length
      modifies mem
      ensures IsChunk(mem[..], o) && mem[o].size == size && mem[o].inUse == inUse
      ensures forall i | 0 <= i < mem.Length && !(o <= i < o + HDR) :: mem[i] == old(mem[i])
    {
      var prev: int := *;
      var next: int := *;
      mem[o] := Header(prev, next, size, inUse);
      for i := 1 to HDR
        invariant IsChunk(mem[..], o) && mem[o].size == size && mem[o].inUse == inUse
        invariant forall j | 0 <= j < mem.Length && !(o <= j < o + HDR) :: mem[j] == old(mem[j])
      {
        mem[o + i] := Pad;
      }
    }

    /** Keeps the rest of chunk c free when c is larger than needed by more than a header. */
    method SplitChunk(c: int, size: nat)
      requires Valid() && c in chunks && mem[c].inUse
      modifies this, mem
      ensures SplitOff(old(Snap()), Snap(), c, AlignUp(size))
    {
      hide Tiled, FreeExact, Aligned, AlignUp, Linked, KeepsOthers;
      ghost var v := Snap();
      ChunkFacts(v, c);
      var offset := AlignUp(size);
      if offset + HDR < mem[c].size {
        var n := c + HDR + offset;
        FormHeader(n, mem[c].size - HDR - offset, false);
        ghost var m := mem[..];
        FormedInside(v, m, c, n);
        FreeChunk(n);
        ghost var m1 := mem[..];
        assert IsChunk(m1, c);
        mem[c] := mem[c].(size := offset);
        mem[c] := mem[c].(next := NULL, prev := NULL);
        if heapUsage == v.usage { chunks := chunks + {n}; }
        FreedParted(v, m, m1, Snap(), c, offset, n);
        LinkedOutside(m1, freeList, free, c, mem[c]);
        SplitGood(v, Snap(), c, offset, n);
      } else {
        SplitNone(v, c, offset);
      }
    }

    /** Coalesces around the first SEARCH_MAX entries of the free list. */
    method DefragChunks()
      requires Valid()
      modifies this`freeList, this`free, this`chunks, mem
      ensures Valid() && Defragged(old(Snap()), Snap())
    {
      hide Tiled, FreeExact, Linked, Aligned, Merged, AllClosed;
      ghost var v := Snap();
      ScanStart(v);
      var i := SEARCH_MAX;
      var chunk := freeList;
      ghost var j := 0;
      while chunk != NULL
        invariant Scanned(v, Snap(), chunk, i, j)
        decreases i
      {
        if i == 0 { break; }
        i := i - 1;
        ghost var u := Snap();
        CoalesceChunks(chunk);
        j := ScanStep(v, u, Snap(), chunk, i + 1, j);
        chunk := mem[chunk].next;
      }
      ScanEnd(v, Snap(), chunk, i, j);
    }

    /** Best fit among the first SEARCH_MAX free chunks, after defragmentation to snapshot d. */
    method GetFreeChunk(size: nat) returns (best: int, ghost d: View)
      requires Valid() && Aligned(size)
      modifies this, mem
      ensures Defragged(old(Snap()), d)
      ensures AllChunks(d.mem, Window(d.free)) && Best(d.mem, Window(d.free), size, best)
      ensures best == NULL ==> Snap() == d
      ensures best != NULL ==> Given(d, Snap(), best, size) && IsChunk(d.mem, best) && CutTo(d, Snap(), best, d.mem[best].size, size)
    {
      hide Good, Aligned, Unlinked, KeepsOthers, Searching, Best, AllChunks, Linked, Defragged, SplitOff, CutTo;
      DefragChunks();
      d := Snap();
      SearchStart(d, size);
      best := NULL;
      var i := SEARCH_MAX;
      var chunk := freeList;
      ghost var at, j := chunk, 0;
      while chunk != NULL
        invariant Snap() == d && Searching(d, size, best, chunk, i, j) && at == chunk
        decreases i
        modifies {}
      {
        SearchFacts(d, size, best, chunk, i, j);
        if i == 0 { break; }
        i := i - 1;
        ghost var b := best;
        at, j := mem[chunk].next, j + 1;
        if size <= mem[chunk].size {
          if best == NULL || mem[chunk].size < mem[best].size {
            best := chunk;
          }
          SearchStep(d, size, b, best, chunk, i + 1, j - 1);
          SearchFacts(d, size, best, at, i, j);
          if mem[best].size == size { break; }
        } else {
          SearchStep(d, size, b, best, chunk, i + 1, j - 1);
        }
        chunk := mem[chunk].next;
      }
      SearchEnd(d, size, best, at, i, j);
      if best != NULL {
        ghost var k :| 0 <= k < |free| && free[k] == best;
        AllocateChunk(best, k);
        ghost var u := Snap();
        TakenGood(d, u, best, k);
        SplitChunk(best, size);
        TakenSplit(d, u, Snap(), best, size);
        CutAfter(d, u, Snap(), best, size);
      }
    }

    /** The live objects: pointer to bytes. */
    ghost function Store(): map<int, seq<Cell>>
      requires Valid()
      reads this, mem
    {
      Objects(Snap())
    }

    /** Grows the footprint by `size` bytes; returns its old end, or NULL if the arena is exhausted. */
    method ExtendSpace(size: nat) returns (oldUsage: int)
      modifies this`heapUsage
      ensures old(heapUsage) + size > mem.Length ==> oldUsage == NULL && heapUsage == old(heapUsage)
      ensures old(heapUsage) + size <= mem.Length ==> oldUsage == old(heapUsage) && heapUsage == old(heapUsage) + size
    {
      if heapUsage + size > mem.Length { return NULL; }
      oldUsage := heapUsage;
      heapUsage := heapUsage + size;
    }

    /** heapmem_alloc; d is the snapshot after defragmentation. */
    method Alloc(n: nat) returns (p: int, ghost d: View)
      requires Valid()
      modifies this, mem
      ensures Valid() && AllocResult(old(Snap()), d, Snap(), p, AlignUp(n))
    {
      hide Tiled, FreeExact, Linked, Aligned, Merged, AllClosed, Unlinked, BestFit, NoFit, KeepsOthers, AlignUp, Objects, CutTo;
      ghost var v := Snap();
      var size := AlignUp(n);
      var chunk;
      chunk, d := GetFreeChunk(size);
      MergedObjects(v, d);
      ghost var fit, u := chunk, Snap();
      NullIsNoObject(u);
      if chunk != NULL { ChunkFacts(u, chunk); }
      if chunk == NULL {
        chunk := ExtendSpace(HDR + size);
        if chunk == NULL {
          return NULL, d;
        }
        var flag: bool := *;
        FormHeader(chunk, size, flag);
        chunks := chunks + {chunk};
      }
      mem[chunk] := mem[chunk].(inUse := true);
      if fit == NULL {
        ExtendedGood(d, Snap(), chunk, size);
      } else {
        assert mem[..] == u.mem;
      }
      GivenObjects(d, Snap(), chunk, size);
      p := chunk + HDR;
    }

    /** free_chunk for the chunk of a live object, with the tiling brought up to date. */
    method FreeObject(chunk: int)
      requires Valid() && chunk in Live(Snap())
      modifies this, mem
      ensures Valid() && Store() == old(Store()) - {chunk + HDR}
      ensures old(End(mem[..], chunk)) == old(heapUsage) ==> heapUsage == chunk && free == old(free)
      ensures old(End(mem[..], chunk)) != old(heapUsage) ==> heapUsage == old(heapUsage) && free == [chunk] + old(free)
    {
      hide Tiled, FreeExact, Linked, Aligned, KeepsOthers, Objects;
      ghost var v := Snap();
      ListFacts(v);
      ChunkFacts(v, chunk);
      FreeChunk(chunk);
      if v.usage != heapUsage { chunks := chunks - {chunk}; }
      FreedGood(v, Snap(), chunk);
      FreedObjects(v, Snap(), chunk);
    }

    /** heapmem_free. */
    method Free(p: int)
      requires Valid() && (p == NULL || p in Store())
      modifies this, mem
      ensures Valid() && Store() == old(Store()) - {p}
      ensures p == NULL ==> Snap() == old(Snap())
      ensures p != NULL ==> heapUsage == if old(End(mem[..], p - HDR)) == old(heapUsage) then p - HDR else old(heapUsage)
      ensures p != NULL ==> free == if heapUsage < old(heapUsage) then old(free) else [p - HDR] + old(free)
    {
      hide Tiled, FreeExact, Linked, Aligned, KeepsOthers, Objects;
      NullIsNoObject(Snap());
      if p != NULL {
        ObjectOf(Snap(), p);
        ChunkFacts(Snap(), p - HDR);
        FreeObject(p - HDR);
      }
    }

    /** memcpy: the two ranges must not overlap. */
    method MemCopy(dst: int, src: int, len: nat)
      requires 0 <= dst && dst + len <= mem.Length && 0 <= src && src + len <= mem.Length
      requires dst + len <= src || src + len <= dst
      modifies mem
      ensures mem[..] == Copied(old(mem[..]), dst, src, len)
    {
      hide Copied;
      ghost var m := mem[..];
      CopiedMore(m, dst, src, 0);
      for i := 0 to len
        invariant mem[..] == Copied(m, dst, src, i)
      {
        CopiedMore(m, dst, src, i);
        mem[dst + i] := mem[src + i];
      }
    }

    /** The end of heapmem_realloc: a new place for the object of `chunk`, which could not grow where it is. */
    method Relocate(chunk: int, size: nat) returns (q: int, ghost d: View)
      requires Valid() && chunk in Live(Snap()) && mem[chunk].size < size && AlignUp(size) == size
      modifies this, mem
      ensures Valid()
      ensures q == NULL ==> Snap() == d && Store() == old(Store()) && OutOfSpace(Snap(), size, mem.Length)
      ensures q != NULL ==> Relocated(old(Store()), Store(), chunk + HDR, q, size)
    {
      hide Tiled, FreeExact, Linked, Aligned, Merged, Unlinked, BestFit, NoFit, KeepsOthers, AlignUp, Objects, AlignedChunk, Closed, AllClosed, AllocResult, Payload, Relocated, OutOfSpace, SameOutside, Copied;
      ghost var u := Snap();
      ObjectOf(u, chunk + HDR);
      ChunkFacts(u, chunk);
      assert u.mem[chunk].size < size;
      q, d := Alloc(size);
      ghost var w := Snap();
      NewPlace(u, d, w, chunk, q, size);
      if q == NULL {
        return NULL, d;
      }
      ChunkFacts(w, chunk);
      Apart(w, chunk, q - HDR);
      MemCopy(q, chunk + HDR, mem[chunk].size);
      ghost var x := Snap();
      CopiedObject(w, x, chunk + HDR, q);
      assert chunk in Live(x);
      hide Live;
      FreeObject(chunk);
      RelocatedMaps(Objects(u), Objects(w), Store(), chunk + HDR, q, size);
    }

    /** heapmem_realloc; d is the snapshot after the defragmentation of a failed or moving request. */
    method Realloc(p: int, n: nat) returns (q: int, ghost d: View)
      requires Valid() && (p == NULL || p in Store())
      modifies this, mem
      ensures Valid() && ReallocResult(old(Snap()), d, Snap(), p, q, n)
    {
      hide Tiled, FreeExact, Linked, Aligned, Merged, Unlinked, BestFit, NoFit, KeepsOthers, AlignUp, Objects, AlignedChunk, Resized, ReallocFailed, OutOfSpace, CutTo, Room;
      ghost var v := Snap();
      d := v;
      NullIsNoObject(v);
      if p == NULL {
        q, d := Alloc(n);
        return;
      }
      ObjectOf(v, p);
      if n == 0 {
        Free(p);
        return NULL, d;
      }
      var chunk := p - HDR;
      ChunkFacts(v, chunk);
      AbsorbedRefl(v, chunk);
      MergedKeeps(v, v, chunk);
      var size := AlignUp(n);
      if size - mem[chunk].size <= 0 {
        SplitChunk(chunk, size);
        SplitObjects(v, v, Snap(), chunk, size);
        CutAfter(v, v, Snap(), chunk, size);
        return p, d;
      }
      if chunk + HDR + mem[chunk].size == heapUsage {
        var end := ExtendSpace(size - mem[chunk].size);
        if end != NULL {
          mem[chunk] := mem[chunk].(size := size);
          GrownGood(v, Snap(), chunk, size);
          GrownKeeps(v, Snap(), chunk, size);
          GrownObjects(v, Snap(), chunk, size);
          return p, d;
        }
        assert Snap() == v && Closed(v, chunk);
      } else {
        CoalesceChunks(chunk);
        CoalescedSize(v, Snap(), chunk);
        CoalescedRoom(v, Snap(), chunk);
        MergedKeeps(v, Snap(), chunk);
        ChunkFacts(Snap(), chunk);
        if mem[chunk].size >= size {
          ghost var u := Snap();
          SplitChunk(chunk, size);
          SplitObjects(v, u, Snap(), chunk, size);
          CutAfter(v, u, Snap(), chunk, size);
          return p, d;
        }
      }
      ghost var u := Snap();
      NotGrown(v, u, chunk, size);
      ObjectOf(u, p);
      AlignTwice(n);
      assert !Fits(v, chunk, size);
      q, d := Relocate(chunk, size);
      if q != NULL {
        GrownThenMoved(Objects(v), Objects(u), Store(), p, q, size);
      } else {
        FailedAfter(v, u, Snap(), chunk, size);
      }
    }

    /** heapmem_stats: merges free neighbours on its way and adds up the arena. */
    method Stats() returns (used: nat, overhead: nat, available: nat, footprint: nat, count: nat)
      requires Valid()
      modifies this`freeList, this`free, this`chunks, mem
      ensures Valid() && Store() == old(Store()) && heapUsage == old(heapUsage)
      ensures used + overhead + available == mem.Length
      ensures used == UsedBelow(mem[..], chunks, heapUsage) == BytesBelow(Store(), heapUsage + HDR)
      ensures count == |chunks| && overhead == count * HDR && footprint == heapUsage
      ensures AllClosed(Snap(), free)
    {
      hide Tiled, FreeExact, Linked, Aligned, Merged, AllClosed, Objects, Closed, Absorbed, Tallied, UsedBelow, AlignedChunk;
      ghost var v := Snap();
      used, overhead, available := 0, 0, 0;
      NullIsNoObject(v);
      TallyStart(v);
      var chunk := 0;
      while chunk < heapUsage
        invariant heapUsage == v.usage && Tallied(v, Snap(), chunk, used, overhead, available)
        decreases heapUsage - chunk
      {
        TallyFacts(v, Snap(), chunk, used, overhead, available);
        if mem[chunk].inUse {
          TallyNext(v, Snap(), chunk, mem[chunk].size, used, overhead, available);
          used := used + mem[chunk].size;
        } else {
          ghost var u := Snap();
          CoalesceChunks(chunk);
          TallyMerge(v, u, Snap(), chunk, used, overhead, available);
          TallyFacts(v, Snap(), chunk, used, overhead, available);
          TallyNext(v, Snap(), chunk, mem[chunk].size, used, overhead, available);
          available := available + mem[chunk].size;
        }
        overhead := overhead + HDR;
        chunk := chunk + HDR + mem[chunk].size;
      }
      TallyFacts(v, Snap(), chunk, used, overhead, available);
      TallyEnd(v, Snap(), chunk, used, overhead, available);
      MergedObjects(v, Snap());
      UsedIsStored(Snap(), heapUsage);
      available := available + (mem.Length - heapUsage);
      footprint := heapUsage;
      count := overhead / HDR;
    }

    /** A client writes byte i of its object. */
    method Write(p: int, i: nat, b: bv8)
      requires Valid() && p in Store() && i < |Store()[p]|
      modifies mem
      ensures Valid() && Store() == old(Store())[p := old(Store())[p][i := Byte(b)]]
    {
      hide Tiled, FreeExact, Linked, Aligned, Objects, KeepsOthers;
      ghost var v := Snap();
      ObjectOf(v, p);
      ChunkFacts(v, p - HDR);
      mem[p + i] := Byte(b);
      WrittenGood(v, Snap(), p - HDR);
      assert Payload(mem[..], p - HDR) == Payload(v.mem, p - HDR)[i := Byte(b)];
    }

    /** A client reads byte i of its object. */
    method Read(p: int, i: nat) returns (x: Cell)
      requires Valid() && p in Store() && i < |Store()[p]|
      ensures x == Store()[p][i]
    {
      ObjectOf(Snap(), p);
      x := mem[p + i];
    }
  }
}
