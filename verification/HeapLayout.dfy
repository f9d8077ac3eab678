/** The arena of os/lib/heapmem.c as a value: what its bytes and chunk headers must look like. */
module HeapLayout {
  import opened Sequences

  type Positive = n: nat | n >= 1 witness 1

  /** Build-time parameters: alignment unit, header size (a multiple of it), bound on list scans. */
  const ALIGNMENT: Positive
  type HeaderSize = n: nat | n >= 1 && n % ALIGNMENT == 0 witness ALIGNMENT
  const HDR: HeaderSize
  const SEARCH_MAX: nat

  /** One byte of the arena. `Header` sits at a chunk's first byte and stands for the whole struct; `Pad` is the rest of it. */
  datatype Cell = Byte(value: bv8) | Pad | Header(prev: int, next: int, size: nat, inUse: bool)

  /** A snapshot: the arena, the two C globals, and the two views that the proofs keep of it. */
  datatype View = View(mem: seq<Cell>, usage: int, head: int, chunks: set<int>, free: seq<int>)

  predicate Aligned(x: int) { x % ALIGNMENT == 0 }

  /** ALIGN(size): rounds up to the alignment unit. */
  function AlignUp(x: nat): (r: nat)
    ensures x <= r < x + ALIGNMENT && Aligned(r)
    ensures Aligned(x) ==> r == x
  {
    var k := (x + ALIGNMENT - 1) / ALIGNMENT;
    MultipleAligned(k);
    MultipleAligned(x / ALIGNMENT);
    MultipleBounds(x, k);
    k * ALIGNMENT
  }

  lemma MultipleBounds(x: nat, k: nat)
    requires k == (x + ALIGNMENT - 1) / ALIGNMENT
    ensures x <= k * ALIGNMENT < x + ALIGNMENT
    ensures Aligned(x) ==> k * ALIGNMENT == x
  {
    if Aligned(x) {
      var q := x / ALIGNMENT;
      assert x == q * ALIGNMENT;
      assert k > q ==> k * ALIGNMENT >= (q + 1) * ALIGNMENT;
      assert k < q ==> k * ALIGNMENT <= (q - 1) * ALIGNMENT;
    }
  }

  lemma {:induction false} MultipleAligned(k: nat)
    ensures Aligned(k * ALIGNMENT)
  {
    if k > 0 {
      MultipleAligned(k - 1);
      assert k * ALIGNMENT == (k - 1) * ALIGNMENT + ALIGNMENT;
    }
  }

  lemma AlignedSum(a: nat, b: nat)
    requires Aligned(a) && Aligned(b)
    ensures Aligned(a + b)
  {
    var i, j := a / ALIGNMENT, b / ALIGNMENT;
    assert a + b == (i + j) * ALIGNMENT;
    MultipleAligned(i + j);
  }

  lemma AlignedDifference(a: nat, b: nat)
    requires Aligned(a) && Aligned(b) && b <= a
    ensures Aligned(a - b)
  {
    var i, j := a / ALIGNMENT, b / ALIGNMENT;
    assert a - b == (i - j) * ALIGNMENT;
    assert i >= j;
    MultipleAligned(i - j);
  }

  predicate IsChunk(m: seq<Cell>, o: int) { 0 <= o < |m| && m[o].Header? }

  function End(m: seq<Cell>, o: int): int
    requires IsChunk(m, o)
  {
    o + HDR + m[o].size
  }

  /** What follows the chunk is the next chunk, or nothing. */
  predicate EndsWell(m: seq<Cell>, usage: int, chunks: set<int>, o: int)
    requires IsChunk(m, o)
  {
    End(m, o) == usage || End(m, o) in chunks
  }

  predicate AlignedChunk(m: seq<Cell>, o: int)
    requires IsChunk(m, o)
  {
    Aligned(o) && Aligned(m[o].size)
  }

  /** The chunks lie end to end, without gap or overlap, from 0 to the footprint. */
  ghost predicate Tiled(m: seq<Cell>, usage: int, chunks: set<int>) {
    && 0 <= usage <= |m|
    && (0 in chunks <==> usage > 0)
    && (forall o | o in chunks :: IsChunk(m, o) && End(m, o) <= usage)
    && (forall o {:trigger EndsWell(m, usage, chunks, o)} | o in chunks :: EndsWell(m, usage, chunks, o))
    && (forall o, p | o in chunks && p in chunks && o < p :: End(m, o) <= p)
    && (forall o {:trigger AlignedChunk(m, o)} | o in chunks :: AlignedChunk(m, o))
  }

  predicate AllChunks(m: seq<Cell>, f: seq<int>) { forall o | o in f :: IsChunk(m, o) }

  /** The pointers of the chunk at list position i lead to positions i + 1 and i - 1. */
  predicate LinkAt(m: seq<Cell>, f: seq<int>, i: int)
    requires 0 <= i < |f| && AllChunks(m, f)
  {
    assert f[i] in f;
    m[f[i]].next == At(f, i + 1) && m[f[i]].prev == At(f, i - 1)
  }

  /** `next` and `prev` are the two readings of one list that starts at `head`. */
  ghost predicate Linked(m: seq<Cell>, head: int, f: seq<int>) {
    && Distinct(f)
    && AllChunks(m, f)
    && head == At(f, 0)
    && (forall i {:trigger LinkAt(m, f, i)} | 0 <= i < |f| :: LinkAt(m, f, i))
  }

  /** The free list holds exactly the chunks that are not in use. */
  ghost predicate FreeExact(m: seq<Cell>, chunks: set<int>, f: seq<int>) {
    && (forall o | o in f :: o in chunks)
    && (forall o | o in chunks :: IsChunk(m, o) && (o in f <==> !m[o].inUse))
  }

  ghost predicate Good(v: View) {
    && Tiled(v.mem, v.usage, v.chunks)
    && FreeExact(v.mem, v.chunks, v.free)
    && Linked(v.mem, v.head, v.free)
  }
}
