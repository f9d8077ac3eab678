/** Whole runs of the allocator: whatever clients ask for, each byte reads back as it was last written. */
module HeapRun {
  import opened Sequences
  import opened HeapLayout
  import opened HeapObjects
  import opened HeapMerge
  import opened HeapClient
  import opened HeapMem

  datatype Request =
    | Malloc(n: nat)
    | Dispose(p: int)
    | Resize(p: int, n: nat)
    | Put(p: int, i: nat, b: bv8)
    | Report

  /** A request and the pointer it was answered with. */
  datatype Event = Event(request: Request, answer: int)

  /** What a client knows of one object: the size it asked for, and the bytes it wrote last. */
  datatype Note = Note(size: nat, bytes: map<int, bv8>)

  type Notes = map<int, Note>

  /** The interface lets clients name live pointers only, and write below the size they asked for. */
  predicate Allowed(notes: Notes, r: Request) {
    match r
    case Dispose(p) => p == NULL || p in notes
    case Resize(p, _) => p == NULL || p in notes
    case Put(p, i, _) => p in notes && i < notes[p].size
    case _ => true
  }

  /** The bytes of a note that survive a change of size to n. */
  function Cut(note: Note, n: nat): Note {
    Note(n, map i | i in note.bytes && i < n :: note.bytes[i])
  }

  function Noted(notes: Notes, e: Event): Notes {
    var q := e.answer;
    match e.request
    case Malloc(n) => if q == NULL then notes else notes[q := Note(n, map[])]
    case Dispose(p) => notes - {p}
    case Resize(p, n) =>
      if p == NULL then (if q == NULL then notes else notes[q := Note(n, map[])])
      else if p !in notes then notes
      else if n == 0 then notes - {p}
      else if q == NULL then notes
      else (notes - {p})[q := Cut(notes[p], n)]
    case Put(p, i, b) => if p in notes then notes[p := notes[p].(bytes := notes[p].bytes[i := b])] else notes
    case Report => notes
  }

  /** The notes of a client after the given events, from an empty heap. */
  function NotesOf(events: seq<Event>): Notes {
    if events == [] then map[]
    else
      var before, e := NotesOf(events[..|events| - 1]), events[|events| - 1];
      if Allowed(before, e.request) then Noted(before, e) else before
  }

  predicate Agrees(notes: Notes, store: map<int, seq<Cell>>) {
    && notes.Keys == store.Keys
    && (forall p | p in notes :: notes[p].size <= |store[p]|)
    && (forall p, i | p in notes && i in notes[p].bytes :: 0 <= i < notes[p].size && store[p][i] == Byte(notes[p].bytes[i]))
  }

  lemma NoteAlloc(notes: Notes, a: map<int, seq<Cell>>, b: map<int, seq<Cell>>, p: int, n: nat)
    requires Agrees(notes, a) && p !in a && p in b && b - {p} == a && n <= |b[p]|
    ensures Agrees(notes[p := Note(n, map[])], b)
  {
    assert b.Keys == a.Keys + {p};
  }

  lemma NoteResize(notes: Notes, a: map<int, seq<Cell>>, b: map<int, seq<Cell>>, p: int, q: int, n: nat, size: nat)
    requires Agrees(notes, a) && p in a && q != NULL && Resized(a, b, p, q, size) && n <= size
    ensures Agrees((notes - {p})[q := Cut(notes[p], n)], b)
  {
    var kept := if size < |a[p]| then size else |a[p]|;
    var notes' := (notes - {p})[q := Cut(notes[p], n)];
    assert b.Keys == (b - {q}).Keys + {q} == (a - {p}).Keys + {q};
    forall x | x in notes' && x != q ensures x in a && b[x] == a[x] && notes'[x] == notes[x] {
      assert x in a - {p} && x in b - {q} && (a - {p})[x] == (b - {q})[x];
    }
    forall i | i in notes'[q].bytes ensures b[q][i] == Byte(notes'[q].bytes[i]) {
      assert a[p][..kept][i] == b[q][..kept][i];
    }
  }

  lemma NoteGrown(notes: Notes, a: map<int, seq<Cell>>, b: map<int, seq<Cell>>, p: int, size: nat)
    requires Agrees(notes, a) && p in a && Resized(a, b, p, NULL, size)
    ensures Agrees(notes, b)
  {
    assert b.Keys == (b - {p}).Keys + {p} == (a - {p}).Keys + {p};
    forall x | x in notes && x != p ensures x in a && b[x] == a[x] {
      assert x in a - {p} && x in b - {p} && (a - {p})[x] == (b - {p})[x];
    }
  }

  lemma NoteFree(notes: Notes, a: map<int, seq<Cell>>, p: int)
    requires Agrees(notes, a)
    ensures Agrees(notes - {p}, a - {p})
  { }

  lemma NotePut(notes: Notes, a: map<int, seq<Cell>>, p: int, i: nat, b: bv8)
    requires Agrees(notes, a) && p in notes && i < notes[p].size
    ensures p in a && i < |a[p]|
    ensures Agrees(notes[p := notes[p].(bytes := notes[p].bytes[i := b])], a[p := a[p][i := Byte(b)]])
  { }

  lemma SameKeys(notes: Notes, a: map<int, seq<Cell>>)
    requires Agrees(notes, a)
    ensures forall p :: p in notes <==> p in a
  {
    assert forall p :: p in notes <==> p in notes.Keys;
  }

  lemma NoteAllocResult(v: View, d: View, w: View, notes: Notes, q: int, n: nat)
    requires Good(v) && Agrees(notes, Objects(v)) && AllocResult(v, d, w, q, AlignUp(n))
    ensures Good(w) && Agrees(if q == NULL then notes else notes[q := Note(n, map[])], Objects(w))
  {
    hide Good, Objects, Agrees, BestFit, OutOfSpace, AllClosed;
    if q != NULL { NoteAlloc(notes, Objects(v), Objects(w), q, n); }
  }

  lemma NoteRealloc(v: View, d: View, w: View, notes: Notes, p: int, q: int, n: nat)
    requires Good(v) && Agrees(notes, Objects(v)) && (p == NULL || p in notes) && ReallocResult(v, d, w, p, q, n)
    ensures Good(w) && Agrees(Noted(notes, Event(Resize(p, n), q)), Objects(w))
  {
    hide Good, Objects, AllocResult, OutOfSpace;
    if p == NULL {
      NoteAllocResult(v, d, w, notes, q, n);
    } else if n > 0 {
      hide Agrees, Resized;
      if q == NULL { NoteGrown(notes, Objects(v), Objects(w), p, AlignUp(n)); }
      else { NoteResize(notes, Objects(v), Objects(w), p, q, n, AlignUp(n)); }
    }
  }

  /** Serves one request that the interface allows. */
  method Serve(heap: Heap, r: Request, notes: Notes) returns (e: Event)
    requires heap.Valid() && Agrees(notes, heap.Store()) && Allowed(notes, r)
    modifies heap, heap.mem
    ensures heap.Valid() && e.request == r && Agrees(Noted(notes, e), heap.Store())
  {
    hide Good, Resized, ReallocResult, AllocResult, Agrees, Objects, AllClosed, Merged;
    SameKeys(notes, heap.Store());
    var q := NULL;
    match r {
      case Malloc(n) =>
        ghost var v, d := heap.Snap(), heap.Snap();
        q, d := heap.Alloc(n);
        NoteAllocResult(v, d, heap.Snap(), notes, q, n);
      case Dispose(p) =>
        NoteFree(notes, heap.Store(), p);
        heap.Free(p);
      case Resize(p, n) =>
        ghost var v, d := heap.Snap(), heap.Snap();
        q, d := heap.Realloc(p, n);
        NoteRealloc(v, d, heap.Snap(), notes, p, q, n);
      case Put(p, i, b) =>
        NotePut(notes, heap.Store(), p, i, b);
        heap.Write(p, i, b);
      case Report =>
        var used, overhead, available, footprint, count := heap.Stats();
    }
    e := Event(r, q);
  }

  /** Serves a list of requests, leaving out those that the interface forbids. */
  method Run(heap: Heap, requests: seq<Request>) returns (events: seq<Event>)
    requires heap.Valid() && heap.Store() == map[]
    modifies heap, heap.mem
    ensures heap.Valid()
    ensures |events| == |requests| && forall k | 0 <= k < |events| :: events[k].request == requests[k]
    ensures Agrees(NotesOf(events), heap.Store())
  {
    events := [];
    var notes: Notes := map[];
    for k := 0 to |requests|
      invariant heap.Valid()
      invariant |events| == k && forall j | 0 <= j < k :: events[j].request == requests[j]
      invariant notes == NotesOf(events) && Agrees(notes, heap.Store())
    {
      var e := Event(requests[k], NULL);
      ghost var before := events;
      if Allowed(notes, requests[k]) {
        e := Serve(heap, requests[k], notes);
        notes := Noted(notes, e);
      }
      events := events + [e];
      assert events[..|events| - 1] == before;
    }
  }
}
