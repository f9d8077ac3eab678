# Contiki-NG libraries, verified

A Dafny model of the stateful libraries at the bottom of a Contiki-NG system, with proofs of what they promise:

- **Heap allocator** (`os/lib/heapmem.c`), modules `HeapLayout` to `HeapRun`. The arena is an array of cells; a header
  sits on the first byte of its chunk. The invariant says that the chunks tile the footprint without gap and that the
  free list, threaded through the headers, holds exactly the chunks that are not in use. On top of it the heap is a
  finite map from pointers to bytes, and `HeapRun` follows whole runs of client calls.
- **Neighbour tables** (`os/net/nbr-table.c` over `os/lib/list.c` and `os/lib/memb.c`), modules `ListLib`, `MembLib`
  and `NbrSpec` to `NbrRun`. Key list, pool and bitmaps refine an ordered sequence of addresses with one address set
  per table.
- **SLIP driver** (`os/dev/slip.c`), modules `SlipSpec`, `SlipState`, `SlipRun`, `Slip`, `SlipLink`, `SlipRaw`. The cyclic
  buffer stands for a queue of frames; `SlipRaw` follows it where it does not.
- **Integer FFT** (`os/lib/ifft.c`), modules `IfftSpec`, `IfftBounds`, `Ifft`, and `Complex`, `Fourier`, `FourierBound`
  for what the transform has to do with Fourier sums.
- **Trickle timer** (`os/lib/trickle-timer.c`), modules `TrickleMath`, `MaxImax`, `Trickle`, over a clock of 16 or 32 bits.
- **CCM\*** (`os/lib/ccm-star.c`), modules `CcmSpec`, `CcmBlocks`, `CcmStar`, against RFC 3610 with L = 2 and any block function.
- **Ring buffer and serial line** (`os/lib/ringbuf.c`, `os/dev/serial-line.c`), modules `RingBuf`, `SerialSpec`,
  `SerialLine`, and `SerialRace` for every interleaving of their atomic steps.
- **Circular lists** (`os/lib/circular-list.c`, `os/lib/dbl-circ-list.c`), modules `Cycles`, `CircularList`, `DblCircList`.
- **CRC-16** (`os/lib/crc16.c`), module `Crc16`.

`Common`, `Sequences` and `Powers` hold what several of them share. The methods keep the form of the C functions, with their
loops and updates in place; build-time parameters (alignment, header size, search bound, buffer sizes, clock width) are
constants without a value, so each result holds for all of them. Pointers are offsets or node numbers, and NULL is -1;
int has 32 bits.
Clock readings and random numbers are parameters; a ctimer is the delay and the callback it was set to.
`dafny verify dfyconfig.toml` checks the whole project.

## What the proofs brought to light

- The 16-bit and 32-bit variants of `max_imax` lack the decrement of the generic one. They return one doubling less than
  possible exactly when Imin is a power of two (`MaxImax.Bits16`, `MaxImax.Bits32`).
- `trickle_timer_config` rejects k = 0, although `trickle-timer.h` gives k = 0 the meaning that suppression is disabled,
  and `fire` still caters for it.
- A comment in `trickle_timer_config` allows Imin up to (TRICKLE_TIMER_CLOCK_MAX >> 1) + 1; the check that follows it
  rejects that last value (`Trickle.TrickleTimer.Config`).
- A leading END byte that arrives while an unpolled packet is buffered is stored as an empty frame
  (`SlipRun.BackToBackBreaks`; `SlipState.CleanExactly` gives the exact condition). Two `slip_write` calls in a row are
  received intact if and only if the poll comes between them; otherwise the second packet gains END bytes, or waits for
  a further END byte (`SlipRaw.BothDelivered`).
- A packet sent after a frame that was cut off right behind an ESC byte is lost (`SlipRun.Recovery`).
- A failed `heapmem_realloc` may have enlarged the object. Its bytes are kept, and its size is unchanged if and only if
  its chunk was the last one or was followed by one in use (`HeapClient.CoalescedSize`, `HeapClient.FailedAfter`).
- `list_insert`, `dbl_circ_list_add_after` and `dbl_circ_list_add_before` take the new element out first. Given as its
  own anchor it drops out of the singly linked list and points to itself (`ListLib.List.Insert`), and in the doubly
  linked list a null pointer is followed (`DblCircList.DoublyCircular.AddAfter`, `DblCircList.DoublyCircular.AddBefore`).
  Both happen for no other member as anchor.

## Model

| member | source | states |
|---|---|---|
| `HeapMem.Heap.AllocateChunk` | os/lib/heapmem.c:190-208 | An entry taken from any position of the doubly linked free list: the list is the old one without that entry, next and prev stay mutually inverse, and only the chunk and its two list neighbours are written. |
| `HeapMem.Heap.FreeChunk` | os/lib/heapmem.c:169-187 | A chunk that ends at the footprint goes back to the unused space; any other is pushed in front of the free list. Nothing else is written. |
| `HeapMem.Heap.SplitChunk` | os/lib/heapmem.c:214-231 | The chunk keeps exactly the aligned size with its bytes when more than a header is left over; the rest becomes a free chunk, or unused space at the end of the footprint. Tiling and free list agree again afterwards. |
| `HeapMem.Heap.CoalesceChunks` | os/lib/heapmem.c:234-246 | All free chunks that directly follow are absorbed and leave the free list, none is left behind, the order of the remaining entries and every live object stay as they were. |
| `HeapMem.Heap.DefragChunks` | os/lib/heapmem.c:249-264 | Merging only, and no entry of a front part of the list is left with a free chunk right behind it; that part is the whole list, or what follows it is at least SEARCH_MAX entries shorter than the list was. |
| `HeapMerge.DefraggedAll` | os/lib/heapmem.c:249-264 | A free list within the search bound ends up without any two adjacent free chunks. |
| `HeapMem.Heap.GetFreeChunk` | os/lib/heapmem.c:267-307 | After defragmentation, the first of the smallest fitting entries among the first SEARCH_MAX of the free list, split so that at most one header is spare; NULL only if none of them fits. |
| `HeapMem.Heap.ExtendSpace` | os/lib/heapmem.c:152-167 | The footprint grows by the size asked for, or stays as it is, and NULL is returned, exactly if the arena would be exceeded. |
| `HeapMem.Heap.Alloc` | os/lib/heapmem.c:325-353 | A new object of at least the aligned size and at most one header more, best fit within the search bound or else at the end of the footprint; what is cut off the best fit heads the free list, or leaves the footprint; all other live objects keep their bytes; NULL exactly if neither is possible, with nothing but merging done. |
| `HeapMem.Heap.FreeObject` | os/lib/heapmem.c:370-384 | The store of live objects loses exactly this object; the footprint shrinks or the chunk goes to the head of the free list. |
| `HeapMem.Heap.Free` | os/lib/heapmem.c:370-384 | The store of live objects loses exactly the object of the pointer; NULL is ignored. |
| `HeapMem.Heap.MemCopy` | os/lib/heapmem.c:479 | The copy of an object, byte by byte, as one function of the arena before it. |
| `HeapMem.Heap.Relocate` | os/lib/heapmem.c:467-482 | Moving an object that could not grow: the new place holds the old bytes, the old place is gone, the other objects are untouched. It fails, with the store unchanged, only if neither the window of the defragmented free list nor the unused space has room in the very state it leaves. |
| `HeapMem.Heap.Realloc` | os/lib/heapmem.c:406-483 | A returned object holds the first min(old, new) bytes of the old one, is at most a header larger than asked for, and the other objects are untouched. It stays in place exactly if it is large enough already, can grow at the end of the footprint, or the free chunks behind it suffice; what it then has too much of by more than a header leaves the footprint or heads the free list. NULL comes back only if the state left behind has no space for the request; the object is then live with its bytes, and its size is unchanged exactly if no free chunk followed it. A null pointer allocates, and size 0 frees. |
| `HeapMem.Heap.Stats` | os/lib/heapmem.c:486-508 | allocated + overhead + available is the arena size; allocated is the number of bytes of all live objects, overhead and chunks count the tiling; the walk merges but changes no object. |
| `HeapMem.Heap.Write` | os/lib/heapmem.c:114-117 | A client write through its pointer changes one byte of one object and nothing else. |
| `HeapMem.Heap.Read` | os/lib/heapmem.c:114-117 | A client read returns the byte of the object in the store. |
| `HeapMem.Heap.constructor` | os/lib/heapmem.c:146-151 | The empty heap satisfies the invariant and has no objects. |
| `HeapSteps.UnlinkKeepsLinked` | os/lib/heapmem.c:195-207 | After the pointer surgery of allocate_chunk the remaining headers read as the list without the entry, in both directions. |
| `HeapSteps.PushKeepsLinked` | os/lib/heapmem.c:180-185 | After the pointer surgery of free_chunk the headers read as the list with the chunk in front, in both directions. |
| `HeapSteps.SplitTile` | os/lib/heapmem.c:221-224 | Cutting one tile in two leaves a gapless, aligned tiling of the footprint. |
| `HeapSteps.AbsorbTile` | os/lib/heapmem.c:239-244 | Counting a neighbour into a tile leaves a gapless, aligned tiling. |
| `HeapSteps.ExtendTile` | os/lib/heapmem.c:160-166 | A tile put at the end of the footprint continues the tiling. |
| `HeapSteps.ReleaseLast` | os/lib/heapmem.c:175-177 | Without its last tile the tiling covers the smaller footprint. |
| `HeapMerge.MergedKeeps` | os/lib/heapmem.c:234-264 | Any amount of merging keeps the set of live objects and all their bytes. |
| `HeapMerge.MergeStep` | os/lib/heapmem.c:242-243 | One absorption, grown header first and list removal second, keeps tiling, list and the earlier merges together. |
| `HeapMerge.ScanStep` | os/lib/heapmem.c:254-263 | One round of the bounded scan: the entries passed have no free right neighbour, even though merging removes entries before and behind the scan position. |
| `HeapObjects.ObjectsDisjoint` | os/lib/heapmem.c:104-117 | Any two live objects are aligned, lie inside the footprint, and are separated by at least a header. |
| `HeapObjects.SearchStep` | os/lib/heapmem.c:278-297 | One entry looked at keeps: best is NULL if nothing fitted so far, else the first of the smallest fits. |
| `HeapObjects.SearchEnd` | os/lib/heapmem.c:278-297 | At the end of the list, at the bound or at a perfect fit, the result is the best fit of the whole window. |
| `HeapObjects.TakenSplit` | os/lib/heapmem.c:299-303 | Taking the best chunk off the list and splitting it brings exactly one object to life, with at most a header to spare. |
| `HeapObjects.ExtendedGood` | os/lib/heapmem.c:336-345 | A fresh header at the old end of the footprint brings exactly one object to life. |
| `HeapClient.FreedGood` | os/lib/heapmem.c:169-187 | Freeing keeps the invariant and every other live object. |
| `HeapClient.SplitObjects` | os/lib/heapmem.c:435-440 | Shrinking in place keeps the leading bytes of the object and all other objects. |
| `HeapClient.GrownGood` | os/lib/heapmem.c:443-453 | Growing the last chunk into the unused space keeps the invariant and the set of live objects. |
| `HeapClient.GrownObjects` | os/lib/heapmem.c:443-453 | The object so grown keeps its bytes in front, has the new size, and the other objects are untouched. |
| `HeapClient.CopiedObject` | os/lib/heapmem.c:479 | Copying into another object changes the bytes of that object only. |
| `HeapClient.GrownThenMoved` | os/lib/heapmem.c:454-482 | Absorbing neighbours in vain and then moving still keeps the bytes the object had at the call. |
| `HeapClient.CoalescedSize` | os/lib/heapmem.c:234-246 | Coalescing leaves the size of a chunk alone exactly if the chunk is the last one or is followed by one in use. |
| `HeapClient.FailedAfter` | os/lib/heapmem.c:454-482 | After a failed request the object is live and smaller than asked for, there is no space for it in the state left behind, and its size is what it was at the call exactly if no free chunk followed it. |
| `HeapRoom.AbsorbedReach` | os/lib/heapmem.c:234-246 | Coalescing ends exactly where the run of free chunks behind the chunk ends. |
| `HeapRoom.CoalescedRoom` | os/lib/heapmem.c:234-246 | After coalescing, the chunk has all the room up to the next chunk in use or the end of the footprint. |
| `HeapRoom.CutAfter` | os/lib/heapmem.c:214-231 | What split_chunk cuts off by more than a header leaves the footprint if it was last, and heads the free list otherwise, with the remaining size. |
| `HeapStats.CountAll` | os/lib/heapmem.c:505-507 | The headers summed up along the walk are the number of chunks times the header size. |
| `HeapStats.TallyNext` | os/lib/heapmem.c:493-504 | Each step of the walk keeps the sum of used, overhead and available equal to the address reached. |
| `HeapStats.UsedIsStored` | os/lib/heapmem.c:493-504 | The payloads summed up along the walk are the bytes of the live objects. |
| `HeapRun.Serve` | os/lib/heapmem.c:355-368 | Each call allowed by the interface keeps the store in agreement with what a client knows: sizes asked for and bytes written last. |
| `HeapRun.Run` | os/lib/heapmem.c:309-508 | Over every sequence of alloc, free, realloc, write and stats calls, from an empty heap, each object still reads back every byte last written to it, and the invariant holds throughout. |
| `Ifft.BitRevInvolution` | os/lib/ifft.c:63-72 | Reversing the low nu bits twice gives the index back. |
| `Ifft.Bitrev` | os/lib/ifft.c:63-72 | The shifting loop in 16-bit arithmetic computes the reversal of the low nu bits. |
| `Ifft.Ilog2` | os/lib/ifft.c:88-98 | The largest e with 2^e at most the value; 0 for 0. |
| `IfftBounds.UnitCircle` | os/lib/ifft.c:48-60 | sin² + cos² is at most 128² at every entry of the table. |
| `IfftSpec.Partner` | os/lib/ifft.c:137-156 | In every stage each index has exactly one partner, a block width away, inside the arrays. |
| `IfftSpec.BlockIndex` | os/lib/ifft.c:137-156 | The j-th butterfly of block b joins index 2hb + j with 2hb + h + j, one in an even block and one in the odd block behind it. |
| `IfftBounds.ButterflyWithin` | os/lib/ifft.c:143-151 | A butterfly of two bins within radius b gives two bins within 2b + 2, rounding of the shift included. |
| `IfftBounds.StagesWithin` | os/lib/ifft.c:136-158 | For samples of magnitude at most 128, after stage l every bin satisfies re² + im² <= (130·2^l - 2)², and the stage in 16 bits equals the stage in exact arithmetic. |
| `IfftBounds.TransformExact` | os/lib/ifft.c:114-169 | For such samples and n up to 128 no store to an int16_t loses anything, in the butterflies or in the magnitudes: the 16-bit transform is the exact one. |
| `Ifft.RunStage` | os/lib/ifft.c:136-158 | The two inner loops that share the counter k terminate, stay in the arrays and turn the signal into the stage of it, each index written by exactly one butterfly from values of the stage before, turned by the table values for 1000·BitRev(block)/n. |
| `Ifft.Exchange` | os/lib/ifft.c:151-157 | A swap through an unsigned 16-bit variable loses no sign. |
| `Ifft.Reorder` | os/lib/ifft.c:147-159 | The swap loop applies exactly the bit-reversal permutation to both arrays. |
| `Ifft.Magnitude` | os/lib/ifft.c:161-165 | The first half of the real part becomes |re| + |im|, the rest stays. |
| `Ifft.Ifft` | os/lib/ifft.c:114-169 | For every int16_t input and n = 2^e up to 2^15, the in-place loops compute the staged transform in wrapping 16-bit arithmetic; for 8-bit samples and n up to 128 they compute it exactly. That this is a Fourier transform is said by FourierBound.SpectrumClose. |
| `IfftBounds.QuarterTurns` | os/lib/ifft.c:48-60 | The table is 0, 127, 0, -127 at the quarters of a turn and never falls on the way up to the first. |
| `IfftBounds.FirstQuarter` | os/lib/ifft.c:48-60 | In the first quarter sin² + cos² is at least 126² of 128², and sin 2a is 2 sin a cos a up to 143/127 units. |
| `Fourier.PolySplit` | os/lib/ifft.c:136-158 | A polynomial is its even part plus v times its odd part, both at v²: the law behind each stage, for any coefficients and any v. |
| `Fourier.StepValues` | os/lib/ifft.c:137-156 | In exact complex arithmetic, one butterfly of stage l takes the block polynomials of stage l - 1 to those of stage l, if w is minus one after half a turn. |
| `Fourier.NetworkIsFourier` | os/lib/ifft.c:136-159 | The butterfly network with factors w^BitRev(block), read in bit-reversed order, computes the Fourier sums of the samples x(j) w^(jk), for every power of two. |
| `FourierBound.TurnError` | os/lib/ifft.c:143-144 | A bin turned by table values and shifted right differs from the exact bin turned exactly by at most the three errors of bin, table and shift together. |
| `FourierBound.ButterflyNear` | os/lib/ifft.c:137-156 | One fixed-point butterfly keeps both outputs within a bound of the exact butterfly with factor w^BitRev(block). |
| `FourierBound.StagesNear` | os/lib/ifft.c:136-158 | After l stages every fixed-point bin lies within the deviation of the exact network. |
| `FourierBound.SpectrumClose` | os/lib/ifft.c:114-169 | For 8-bit samples, n up to 128 and any root w whose powers the table approximates within d, every bin lies within 2^nu (65 nu d + 180)/128 of its Fourier sum, and each magnitude within one and a half times that. |
| `FourierBound.FourPoints` | os/lib/ifft.c:114-169 | The two magnitudes for four samples are |a + b + c + d| and |a - c| + |b - d|, up to 13 units. |
| `FourierBound.EightTabled` | os/lib/ifft.c:48-86 | For eight points the table is within one unit of the powers of an eighth of a turn. |
| `NbrTable.ItemIndex` | os/net/nbr-table.c:94-113 | An item pointer computed from an index gives the index back. |
| `NbrSpec.SetBit` | os/net/nbr-table.c:162-179 | Setting or clearing the bit of one table leaves the bits of all other tables alone. |
| `NbrSpec.CountStep` | os/net/nbr-table.c:226-233 | Counting set bits while shifting the map right counts the tables that use the key. |
| `NbrTable.NbrTables.constructor` | os/net/nbr-table.c:82-86 | No neighbours and empty tables satisfy the invariant. |
| `NbrTable.NbrTables.IndexFromLladdr` | os/net/nbr-table.c:129-147 | The key that carries exactly this address, found if and only if the address is among the neighbours; only a null pointer stands for the null address. |
| `NbrTable.NbrTables.GetBit` | os/net/nbr-table.c:149-160 | True exactly if the item belongs to a neighbour whose address is among the members of the table, or among its locked addresses, depending on the map asked; false for NULL. |
| `NbrTable.NbrTables.GetFromLladdr` | os/net/nbr-table.c:395-401 | An item is returned exactly if the address is in the table, and it carries that very address. |
| `NbrTable.NbrTables.GetLladdr` | os/net/nbr-table.c:434-440 | The address of the neighbour whose slot the item is. |
| `NbrTable.NbrTables.Head` | os/net/nbr-table.c:322-334 | The item of the first key in list order that the table uses, or NULL. |
| `NbrTable.NbrTables.Next` | os/net/nbr-table.c:336-347 | The item of the next key in list order that the table uses, or NULL. |
| `NbrTable.NbrTables.Enumerate` | os/net/nbr-table.c:322-347 | head followed by next until NULL yields items whose addresses are the members of the table, each exactly once, in the order in which the neighbours were added. |
| `NbrTable.RestStep` | os/net/nbr-table.c:322-347 | Skipping to the next used key leaves out no item and repeats none. |
| `NbrTable.UsersListed` | os/net/nbr-table.c:322-347 | The used keys in list order carry the addresses of the members of the table in the order of the neighbours. |
| `NbrTable.ListingExact` | os/net/nbr-table.c:322-347 | That list of addresses holds every member of the table and nothing else, each once. |
| `NbrTable.NbrTables.Register` | os/net/nbr-table.c:282-309 | A registered table keeps its index and takes the new callback; a new one is appended unless eight are there. No neighbour changes. |
| `NbrTable.NbrTables.CountUsers` | os/net/nbr-table.c:226-233 | The number of tables that use a key. |
| `NbrTable.NbrTables.FindLeastUsed` | os/net/nbr-table.c:212-252 | The victim is not locked, used by fewest tables, and the oldest among those; NULL exactly if every key is locked. |
| `NbrSteps.CandidateStep` | os/net/nbr-table.c:219-249 | Looking at one more key keeps the best candidate so far the best. |
| `NbrTable.NbrTables.RunCallbacks` | os/net/nbr-table.c:183-193 | Callbacks run once, in table order, for exactly the tables that have one and use the key. |
| `NbrTable.CallbacksExact` | os/net/nbr-table.c:183-193 | These callbacks name strictly increasing tables, and are exactly those of the tables that have one and use the key, each with the item of the key there. |
| `NbrTable.NbrTables.RemoveKey` | os/net/nbr-table.c:180-198 | The victim disappears from the order and from every table, the others stay; callbacks run for its users. |
| `NbrTable.NbrTables.Allocate` | os/net/nbr-table.c:200-279 | While keys are left in the pool no one is evicted; when it is full the victim of the policy is; allocation fails exactly if every key is locked. |
| `NbrTable.NbrTables.Enrol` | os/net/nbr-table.c:362-379 | An unknown address joins the neighbours behind those that stay, in a free key or in that of the victim; or nothing changes, exactly if every key is locked. |
| `NbrTable.NbrTables.SetUsed` | os/net/nbr-table.c:162-179 | Setting the bit of an item makes its address a member of the table, clearing it takes the address out of that table alone; false for NULL only. |
| `NbrTable.NbrTables.AddLladdr` | os/net/nbr-table.c:349-393 | The tables refine an insertion-ordered sequence of distinct addresses with one address set per table: an add joins a known neighbour to the table, or appends it, after evicting the victim if need be, or fails with nothing changed. The item returned carries the very address given, which is then a member of the table, and every neighbour that stays keeps its slot. |
| `NbrTable.NbrTables.Remove` | os/net/nbr-table.c:403-410 | The address leaves this table and its lock there is released, so it is in neither any more; every other table and the key order stay. False for NULL only. |
| `NbrTable.NbrTables.Lock` | os/net/nbr-table.c:412-421 | The table locks this address and no other, and holds the lock afterwards; false, with nothing changed, for NULL only. |
| `NbrTable.NbrTables.Unlock` | os/net/nbr-table.c:423-432 | The table releases this address and no other, and holds no lock on it afterwards; false, with nothing changed, for NULL only. |
| `NbrSteps.PoolFull` | os/net/nbr-table.c:204-207 | A list of n distinct keys below n holds every key, so the pool is exhausted exactly if the list is full. |
| `NbrRun.StepSane` | os/net/nbr-table.c:62-467 | Every call keeps the addresses distinct and within the pool, and the tables and locks within the addresses. |
| `NbrRun.RunSane` | os/net/nbr-table.c:62-467 | The same over every run. |
| `NbrRun.LockedSurvives` | os/net/nbr-table.c:200-279 | Over every run, a neighbour locked by a table keeps its key, its lock and its tables until that table unlocks or removes it, whatever is added meanwhile. |
| `NbrRun.Serve` | os/net/nbr-table.c:349-432 | The calls on the arrays and bitmaps are such steps on their meaning. |
| `NbrSteps.SlotsKept` | os/net/nbr-table.c:366-379 | An unknown address put into a key that is free, or has just become free, moves no neighbour that stays. |
| `NbrRun.OneItem` | os/net/nbr-table.c:94-147 | Two items of a table that carry one address are one item. |
| `NbrRun.AddAndFind` | os/net/nbr-table.c:349-440 | An address that was added is found again, in the item it was given, and read back from it. |
| `NbrRun.AddBoth` | os/net/nbr-table.c:349-440 | Two different addresses added one after the other have two items, each of which gives back its own address, unless the second add fails or evicts the first. |
| `ListLib.List.Remove` | os/lib/list.c:235-260 | The list without the item; cells of nodes outside the list are not written. |
| `ListLib.List.Add` | os/lib/list.c:140-158 | The item moves to, or joins at, the end. |
| `ListLib.List.Push` | os/lib/list.c:162-171 | The item moves to, or joins at, the front. |
| `ListLib.List.Pop` | os/lib/list.c:213-224 | The first item is taken off. |
| `ListLib.List.Chop` | os/lib/list.c:181-202 | The last item is taken off, found by looking two links ahead. |
| `ListLib.List.Insert` | os/lib/list.c:298-309 | The item moves directly behind another member, or to the front for NULL. It is a member afterwards exactly if it is not its own anchor: an item inserted behind itself drops out and points to itself. |
| `ListLib.List.Tail` | os/lib/list.c:115-128 | The last item, or NULL. |
| `ListLib.List.Length` | os/lib/list.c:270-282 | The number of items. |
| `Sequences.RemovedMembers` | os/lib/list.c:235-260 | Removal takes out exactly the item and keeps the others distinct. |
| `MembLib.Memb.Alloc` | os/lib/memb.c:57-76 | The first free block, now taken; NULL exactly if none is free. |
| `MembLib.Memb.Free` | os/lib/memb.c:77-101 | One reference less, never below zero; -1 for a pointer outside the pool. |
| `MembLib.Memb.NumFree` | os/lib/memb.c:109-123 | The number of free blocks. |
| `SlipSpec.DecodeEscape` | os/dev/slip.c:93-115 | Decoding undoes escaping, for every packet. |
| `SlipSpec.EscapeHasNoEnd` | os/dev/slip.c:98-111 | Escaped data holds no END byte. |
| `Slip.SlipWrite` | os/dev/slip.c:92-115 | The bytes written are the frame of the packet: END, its escaped bytes, END. |
| `Slip.Driver.RxbufInit` | os/dev/slip.c:116-122 | An empty buffer stands for an empty queue of frames. |
| `Slip.Driver.InputByte` | os/dev/slip.c:267-330 | The handler makes exactly the step of the receive machine and reports whether a packet was completed. |
| `SlipState.InputRefines` | os/dev/slip.c:267-330 | A byte that needs no discarding while a packet waits does to the cyclic buffer what Receive does to the queue of frames. |
| `SlipState.UncleanBreaks` | os/dev/slip.c:296-320 | Any other byte (bad escape or overflow while a packet waits, or END closing an empty frame behind one) leaves a buffer that stands for no queue of frames. |
| `SlipState.CleanExactly` | os/dev/slip.c:267-330 | The buffer goes on standing for a queue exactly for clean bytes. |
| `SlipState.WaitingSafe` | os/dev/slip.c:267-330 | Whatever byte arrives, clean or not, the packet that waits to be polled is still there whole, and is still what is polled next. |
| `SlipState.PollRefines` | os/dev/slip.c:124-241 | A poll takes exactly the oldest frame off the queue, at any position in the buffer. |
| `SlipState.ScanQueue` | os/dev/slip.c:205-236 | The scan behind the consumed packet finds the end of the next frame, or the free index if there is none. |
| `Slip.Driver.DecodeRange` | os/dev/slip.c:129-160 | The decoding loop continues the decoder over a stretch of the buffer, the escape flag carried in and out. |
| `Slip.Driver.DecodePacket` | os/dev/slip.c:129-203 | One loop, or two across the wrap, decode the logical byte sequence of the packet. |
| `Slip.Driver.PollHandler` | os/dev/slip.c:124-241 | The oldest packet is decoded into the output buffer and the state makes the poll step; nothing is written if no packet waits. |
| `SlipRun.SplitByte` | os/dev/slip.c:267-330 | Each byte moves frames from the stream to the queue in order. |
| `SlipRun.Fifo` | os/dev/slip.c:124-330 | For every interleaving of clean bytes that find room and polls, the frames polled and the frames still waiting are, in order, those the byte stream completes. |
| `SlipRun.FrameArrives` | os/dev/slip.c:93-330 | A slip_write frame that fits arrives as one frame behind what was in progress. |
| `SlipRun.RoundTrip` | os/dev/slip.c:93-330 | At every ring position, a non-empty packet that fits, sent with slip_write to a receiver without data, is what the next poll decodes. |
| `SlipLink.Deliver` | os/dev/slip.c:93-330 | The same through the methods of the driver: what slip_write sends, byte by byte into slip_input_byte, is in the output buffer after slip_poll_handler. |
| `SlipRun.Resync` | os/dev/slip.c:267-330 | With no packet buffered, a bad escape or an overflow discards only the frame in progress, and the packet sent next is decoded intact. |
| `SlipRun.Recovery` | os/dev/slip.c:93-330 | After a frame that was cut off, two polls hand over what there was of it, if anything, and then the packet sent next, which decodes to itself; if the cut came right after ESC they hand over nothing, and the buffer is empty afterwards. |
| `SlipRun.BackToBackBreaks` | os/dev/slip.c:312-323 | If a second slip_write begins before the first packet is polled, its leading END leaves a buffer that stands for no queue of frames; what comes out of it is said by SlipRaw.BothDelivered. |
| `SlipRaw.PolledBetween` | os/dev/slip.c:205-330 | Polled between two frames, the receiver hands over both and is empty. |
| `SlipRaw.PolledInside` | os/dev/slip.c:205-330 | Polled inside the second frame, it hands over the first, and at the end the second with the stray END in front. |
| `SlipRaw.PolledLate` | os/dev/slip.c:205-330 | Polled only behind the second frame, it hands over the first; the second stays between two END bytes, unmarked. |
| `SlipRaw.StrayFrame` | os/dev/slip.c:205-330 | Further polls change nothing; the next END byte closes that frame, and a poll hands it over with an END on either side. |
| `SlipRaw.BothDelivered` | os/dev/slip.c:93-330 | Two packets sent in a row to a receiver without data, polled after j bytes of the second frame and again at the end: both come out intact if and only if j is 0. Otherwise the second decodes with an END in front, or does not come out until a further END arrives, and then with an END on either side. |
| `TrickleMath.ShowsDifference` | os/lib/trickle-timer.c:172-186 | The wrapped difference of two clock readings is the true difference whenever that lies within half a turn. |
| `TrickleMath.CountStep` | os/lib/trickle-timer.c:106-111 | One test of the leading-zero count, at halving widths. |
| `TrickleMath.ZerosToDoublings` | os/lib/trickle-timer.c:99-151 | Leading zeros of Imin - 1, less one, are the largest n with Imin·2^n at most half a turn. |
| `TrickleMath.Masks16` | os/lib/trickle-timer.c:102-127 | The masks of the 16-bit variant, and those the generic one shifts through on a 16-bit clock, tell the values below a power of two. |
| `TrickleMath.Masks32` | os/lib/trickle-timer.c:102-148 | The masks of the 32-bit variant, and those the generic one shifts through on a 32-bit clock, tell the values below a power of two. |
| `MaxImax.Generic` | os/lib/trickle-timer.c:99-111 | The generic routine returns the largest n with Imin·2^n <= 2^(W-1), for W = 16 and 32. |
| `MaxImax.Bits16` | os/lib/trickle-timer.c:112-127 | The 16-bit variant returns the largest such n if and only if Imin is no power of two; for a power of two it is one short. |
| `MaxImax.Bits32` | os/lib/trickle-timer.c:128-148 | The 32-bit variant returns the largest such n if and only if Imin is no power of two; for a power of two it is one short. |
| `TrickleMath.NextLength` | os/lib/trickle-timer.c:207-216 | The doubling rule gives min(2^n·I0, Imax) for the n-th interval. |
| `TrickleMath.PairTest` | os/lib/trickle-timer.h:321-324 | The test of TRICKLE_TIMER_IPAIR_IS_BAD fails a pair exactly if Imin, doubled Imax times, exceeds half a turn of the clock. |
| `Trickle.TrickleTimer.GetT` | os/lib/trickle-timer.c:155-166 | t lies in [I/2, I), I/2 rounded down, and each of the points that far from I/2 is drawn for some random number. |
| `Trickle.TrickleTimer.TicksUntil` | os/lib/trickle-timer.c:172-186 | The delay is max(0, due - now) whenever due and now are within half a turn of each other. |
| `Trickle.TrickleTimer.ScheduleForEnd` | os/lib/trickle-timer.c:167-187 | The timer is set to max(0, end of interval - now). |
| `Trickle.TrickleTimer.DoubleInterval` | os/lib/trickle-timer.c:190-255 | The next interval starts where the last one ended, in unbounded time, however late this runs; its length is min(2I, Imax); t lies in its second half and is awaited for max(0, t - now) ticks. |
| `Trickle.Undisturbed` | os/lib/trickle-timer.c:190-283 | However late the callbacks of any number of rounds run, the n-th interval starts at the first start plus the sum of the n lengths, on the wrapping clock too, and has length min(2^n·I0, Imax). |
| `Trickle.TrickleTimer.Fire` | os/lib/trickle-timer.c:258-283 | Transmission is permitted exactly if fewer than k consistent messages were heard since the interval began; then the end of the interval is awaited. |
| `Trickle.TrickleTimer.NewInterval` | os/lib/trickle-timer.c:286-303 | A new interval starts now, with its counter at zero and t in its second half. |
| `Trickle.TrickleTimer.Consistency` | os/lib/trickle-timer.c:306-314 | One more message heard; the saturating counter never reaches a wrong verdict. |
| `Trickle.TrickleTimer.Inconsistency` | os/lib/trickle-timer.c:315-327 | The interval becomes Imin and starts afresh, unless it was Imin already: then nothing changes. |
| `Trickle.TrickleTimer.Config` | os/lib/trickle-timer.c:328-374 | Accepted exactly for 1 < Imin < 2^(W-1), Imax and k not 0; an Imax that the clock cannot hold, even one of W - 1 or more, is replaced by the largest that it can. |
| `Trickle.TrickleTimer.Set` | os/lib/trickle-timer.c:375-408 | The first interval has a length between Imin and Imax, any of them for some random number, and starts now. |
| `CcmSpec.CryptInvolution` | os/lib/ccm-star.c:128-141 | Counter mode applied twice with the same nonce gives the message back. |
| `CcmStar.AuthFlagsSum` | os/lib/ccm-star.c:81-92 | The flags byte built with shifts is the one of section 2.2 of RFC 3610. |
| `CcmStar.SetIv` | os/lib/ccm-star.c:49-60 | Flags, nonce and a counter or length that fits one byte. |
| `CcmStar.CtrStep` | os/lib/ccm-star.c:61-79 | The bytes of one block of the message, and no others, are combined with the key stream block. |
| `CcmStar.ChainBlocks` | os/lib/ccm-star.c:104-121 | The loop over whole and partial blocks is CBC over the zero-padded rest of the data. |
| `CcmStar.Authenticate` | os/lib/ccm-star.c:94-112 | The additional data is chained with its two-byte length in front. |
| `CcmStar.Mic` | os/lib/ccm-star.c:80-127 | The MIC of sections 2.2 and 2.3 of RFC 3610, block by block, is written to the result and nothing behind it. |
| `CcmStar.Ctr` | os/lib/ccm-star.c:128-141 | Byte j of the message is combined with byte j mod 16 of S_i, i = j/16 + 1, as in section 2.3 of RFC 3610, and nothing behind the message is written. |
| `CcmStar.Aead` | os/lib/ccm-star.c:148-171 | The message is encrypted or decrypted in place byte by byte, and the MIC is that of the plain message in both directions, block by block. |
| `CcmStar.Loopback` | os/lib/ccm-star.c:148-171 | aead with forward 0 applied to the output of forward 1 restores the message and yields the same MIC. |
| `CcmBlocks.LinksEnd` | os/lib/ccm-star.c:80-127 | The last of the chaining values X_1 = E(B_0), X_(i+1) = E(X_i xor B_i) is what the chaining loops compute. |
| `CcmBlocks.MicIsTag` | os/lib/ccm-star.c:80-127 | A string is the MIC of RFC 3610, B_0, then the blocks of length and additional data, then those of the message, combined with S_0, if and only if it is the tag that is computed. |
| `CcmBlocks.CryptIs` | os/lib/ccm-star.c:128-141 | The encryption is that of section 2.3 of RFC 3610, byte by byte. |
| `CcmBlocks.AuthBinds` | os/lib/ccm-star.c:80-127 | For an injective block function, additional data of equal length that differ within one block never share a full MIC under the same nonce and message. |
| `CcmBlocks.MessageBinds` | os/lib/ccm-star.c:80-127 | The same for messages of equal length that differ within one block. |
| `CcmBlocks.BlocksApart` | os/lib/ccm-star.c:49-141 | No two blocks of the key stream come from the same input, and none comes from B_0. |
| `RingBuf.MaskIsWrap` | os/lib/ringbuf.c:52-122 | On bytes, masking with a size less one is the wrap-around used in the model. |
| `RingBuf.Ring.Put` | os/lib/ringbuf.c:51-77 | A byte is appended unless size - 1 bytes are pending; the call is the three atomic steps of the producer, or the one that refuses. |
| `RingBuf.Ring.Get` | os/lib/ringbuf.c:78-110 | The oldest byte is taken, or -1 returned if there is none; the call is the three atomic steps of the consumer, or the one that refuses. |
| `RingBuf.Ring.Elements` | os/lib/ringbuf.c:117-122 | The number of pending bytes, at most size - 1. |
| `RingBuf.ProducerSafe` | os/lib/ringbuf.c:52-77 | Every atomic step of put, wherever get stands, keeps the invariant of the shared state. |
| `RingBuf.ConsumerSafe` | os/lib/ringbuf.c:79-110 | Every atomic step of get, wherever put stands, keeps it. |
| `RingBuf.AlwaysSafe` | os/lib/ringbuf.c:52-110 | Every interleaving of the atomic steps keeps it. |
| `RingBuf.StepIsAtomic` | os/lib/ringbuf.c:52-110 | Each atomic step does nothing to the queue, appends a byte where there is room, or takes the oldest: put and get take effect at one point each, and are refused only while the queue is full or empty. |
| `RingBuf.RingIsFifo` | os/lib/ringbuf.c:52-110 | In every interleaving the bytes got are a prefix of the bytes put, at most size - 1 are pending, and the slot being written is never the slot being read. |
| `SerialSpec.OrderlyStep` | os/dev/serial-line.c:63-90 | Every byte, accepted or dropped, keeps: completed lines are prefixes of input lines with increasing numbers, and the line in progress is a prefix of one later line. |
| `SerialSpec.CompleteStep` | os/dev/serial-line.c:63-90 | As long as nothing is dropped, the assembled lines are the input lines one by one. |
| `SerialSpec.LinesJoin` | os/dev/serial-line.c:63-131 | The input lines joined by END bytes are the input without its carriage returns, and no line holds an END. |
| `SerialSpec.RecoverStep` | os/dev/serial-line.c:63-90 | Every byte, accepted or dropped, keeps: each line begun behind an END that found room, all of whose bytes found room, is assembled in full. |
| `SerialLine.Driver.InputByte` | os/dev/serial-line.c:63-90 | The handler keeps that relation for the bytes in the ring. A byte is appended exactly if there is room and the line is not being skipped, or it is the END that closes a skipped line; an END that finds room always ends the skipping, and a byte that finds none always begins it. |
| `SerialLine.Driver.ProcessByte` | os/dev/serial-line.c:101-131 | Each turn of the process loop takes one byte; at a newline it posts the assembled line, cut to the buffer and closed with a zero byte. |
| `SerialLine.Driver.PostedLines` | os/dev/serial-line.c:63-131 | Every posted line is a prefix of one input line without carriage returns, at most BUFSIZE - 1 bytes, and posted lines come from strictly increasing input lines, whatever overflowed. |
| `SerialLine.Driver.PostedAll` | os/dev/serial-line.c:63-131 | If nothing was dropped, the posted lines are the first input lines, cut to the buffer, and all of them once the ring is empty. |
| `SerialLine.Driver.PostedAgain` | os/dev/serial-line.c:63-131 | Whatever was lost before: a line that begins behind an END that found room, and each of whose bytes found room, reaches the ring whole and has been posted, cut to the buffer, once the ring is empty. |
| `SerialRace.InterruptKeeps` | os/dev/serial-line.c:63-90 | Each atomic step of the interrupt, wherever the process stands in ringbuf_get, keeps the relation between input, stored bytes and posted lines. |
| `SerialRace.ProcessKeeps` | os/dev/serial-line.c:101-131 | Each atomic step of the process, wherever the interrupt stands in ringbuf_put, keeps it. |
| `SerialRace.AlwaysKept` | os/dev/serial-line.c:63-131 | Every list of turns keeps it. |
| `SerialRace.RacedLines` | os/dev/serial-line.c:63-131 | For every interleaving of the atomic ring accesses of handler and process, and whatever overflows: every posted line is a prefix of one input line, cut to the buffer, from strictly increasing input lines; as long as nothing is dropped they are the first input lines. |
| `SerialRace.RacedRecovery` | os/dev/serial-line.c:63-131 | The recovery of PostedAgain for every interleaving of the atomic ring accesses, with the room each call finds when it begins. |
| `Cycles.WalkVisits` | os/lib/circular-list.c:63-76 | From the head, next visits every member once and then returns to the head. |
| `Cycles.RotateCycle` | os/lib/circular-list.c:77-104 | A cycle may be read from any of its members. |
| `CircularList.AfterRemoveMembers` | os/lib/circular-list.c:77-104 | Removal takes out exactly the element and keeps the others distinct. |
| `CircularList.UnlinkCycle` | os/lib/circular-list.c:93-99 | Leading the predecessor past an element leaves a cycle of the others in their cyclic order. |
| `CircularList.Circular.Remove` | os/lib/circular-list.c:77-104 | The element is taken out and the cyclic order of the rest kept; the head becomes its predecessor. Nothing changes for an element that is not there. |
| `CircularList.Circular.Add` | os/lib/circular-list.c:105-132 | The element is there exactly once, as the new head, placed behind the old head. |
| `CircularList.Circular.Tail` | os/lib/circular-list.c:63-76 | The member whose next is the head, or NULL. |
| `CircularList.Circular.Length` | os/lib/circular-list.c:133-149 | The number of members. |
| `DblCircList.Inverse` | os/lib/dbl-circ-list.c:46-49 | For every member, previous of next and next of previous lead back. |
| `DblCircList.InsertRing` | os/lib/dbl-circ-list.c:110-202 | Four pointer writes put a node between two neighbours of a ring, in both directions, rings of one member included. |
| `DblCircList.DropLastRing` | os/lib/dbl-circ-list.c:91-92 | Two pointer writes take a node out of a ring of two or more. |
| `DblCircList.DoublyCircular.Remove` | os/lib/dbl-circ-list.c:78-108 | The ring without the element, its head the next member if it was the head; its own pointers are cleared, and nodes outside the ring are not written. |
| `DblCircList.DoublyCircular.AddHead` | os/lib/dbl-circ-list.c:109-137 | The element moves to, or joins at, the front. |
| `DblCircList.DoublyCircular.AddTail` | os/lib/dbl-circ-list.c:138-165 | The element moves to, or joins at, the end. |
| `DblCircList.DoublyCircular.AddAfter` | os/lib/dbl-circ-list.c:166-181 | The element moves directly behind another member. For an element given as its own anchor the pointer that the code follows next is null, and in no other case. |
| `DblCircList.DoublyCircular.AddBefore` | os/lib/dbl-circ-list.c:182-202 | The element moves directly before another member, as the new head if that was the head. For an element given as its own anchor the pointer that the code follows next is null, and in no other case. |
| `DblCircList.DoublyCircular.Tail` | os/lib/dbl-circ-list.c:64-77 | The member whose next is the head, or NULL. |
| `DblCircList.DoublyCircular.Length` | os/lib/dbl-circ-list.c:203-219 | The number of members. |
| `Crc16.Crc16Add` | os/lib/crc16.c:46-63 | The shift and exclusive-or form is eight steps of the bit-serial register. |
| `Crc16.Crc16Data` | os/lib/crc16.c:65-75 | The loop feeds the bits of the message, first byte first and lowest bit first; a length below 1 leaves the initial value. |
| `Crc16.FeedDivides` | os/lib/crc16.c:43-63 | The bit-serial register holds the remainder of long division by x^16 + x^12 + x^5 + 1. |
| `Crc16.CrcDivides` | os/lib/crc16.c:43-75 | The CRC is the remainder of the message times x^16, the initial value added in front. |
| `Crc16.CrcConcat` | os/lib/crc16.c:65-75 | The CRC of a concatenation is that of the second part started with that of the first. |
| `Crc16.Residue` | os/lib/crc16.c:46-75 | A message followed by two bytes has CRC zero if and only if they are its own CRC, low byte first. |
| `Crc16.BurstDetected` | os/lib/crc16.c:46-75 | Two bit streams of equal length that differ only within 16 consecutive bits never have the same remainder. |
| `Crc16.TwoBytesDetected` | os/lib/crc16.c:46-75 | Two messages of equal length that differ only within two consecutive bytes never have the same CRC. |
| `Crc16.OddErrorsDetected` | os/lib/crc16.c:46-75 | Two messages of equal length that differ in an odd number of bits never have the same CRC. |

## Left out

- heapmem: the debug fields, the overflow of ALIGN and of the signed size_adj for sizes near the machine word, and requests with HEAPMEM_REALLOC disabled; ALIGN is rounding up to a multiple.
- heapmem: pointers that were never handed out, and the contents of fresh objects, which the code leaves as they are.
- nbr-table: NBR_TABLE_FIND_REMOVABLE, an external policy that is not part of this model, and the reason and data arguments that only it uses.
- nbr-table: the zeroing of item payloads, tables that are null or not registered, and the periodic printing.
- nbr-table: removal callbacks that call back into the tables; they are recorded in the order they run.
- list.c: list_copy, list_item_next and list_contains; memb: memb_inmemb and the alignment checks.
- slip: interrupts inside the poll handler; input bytes and polls are whole calls.
- slip: packets that decode to more than blen bytes when the output buffer holds no more than that.
- slip: hardware output, statistics counters and the IP layer behind the poll; the input callback is not called.
- ifft: n that is no power of two; the accuracy of the table against the sine, beyond its quarters, symmetries, unit circle and double angles (d in FourierBound.SpectrumClose stands for it); targets whose int has 16 bits, where the product 1000 * p overflows from p = 33 on.
- trickle: trickle_timer_stop, the variant without drift compensation, error checking disabled, 64-bit clocks, and shifts by 32 bits or more.
- Trickle.TrickleTimer.Config: with the generic max_imax, the default; the other two variants have their own contracts.
- trickle: protocol callbacks that reset the timer from inside; fire returns what they would be told.
- ccm-star: messages above 240 and additional data above 254 bytes, for which the uint8_t position wraps; AES itself.
- ringbuf: reordering of memory accesses by compiler or processor; the atomic steps are those of the code.
- serial-line: the wait until all processes have handled the event; a posted line is recorded with its text.
- crc16: words and bytes are sequences of bits, on which the C operators are written out bit by bit.
- Singly linked circular list: the removed node keeps its own next pointer, about which nothing is said.
- ringbufindex.c, dbl-list.c, queue.h, stack.h, link-stats.c and md5.c: they would repeat weaker or more routine versions of the results above.
- The applications, HALs, network protocols and the process scheduler.
