/** os/lib/ringbuf.c: one producer and one consumer share a ring without locks. */
module RingBuf {
  import opened Common

  /** A power of two that fits uint8_t. */
  type RingSize = n: nat | n in {1, 2, 4, 8, 16, 32, 64, 128} witness 1

  /** (x + 1) & mask, for a pointer below the size. */
  function Next(n: RingSize, x: int): int { if x + 1 == n then 0 else x + 1 }

  /** (put - get) & mask, for pointers below the size. */
  function Pending(n: RingSize, put: int, get: int): int { if put >= get then put - get else put - get + n }

  /** On bytes and a mask of low bits, the two functions are what the masking in the driver computes. */
  lemma MaskIsWrap(put: bv8, get: bv8, mask: bv8)
    requires mask in {0, 1, 3, 7, 15, 31, 63, 127} && put <= mask && get <= mask
    ensures (put + 1) & mask == if put == mask then 0 else put + 1
    ensures (put - get) & mask == if put >= get then put - get else put - get + mask + 1
  { }

  /** The bytes between the pointers, oldest first. */
  function Content(n: RingSize, data: seq<byte>, put: int, get: int): (r: seq<byte>)
    requires |data| == n && 0 <= put < n && 0 <= get < n
    ensures |r| == Pending(n, put, get)
    ensures forall i {:trigger r[i]} | 0 <= i < |r| :: r[i] == data[if get + i >= n then get + i - n else get + i]
  {
    seq(Pending(n, put, get), i requires 0 <= i < Pending(n, put, get) => data[if get + i >= n then get + i - n else get + i])
  }

  lemma ContentPut(n: RingSize, data: seq<byte>, put: int, get: int, c: byte)
    requires |data| == n && 0 <= put < n && 0 <= get < n && Pending(n, put, get) + 1 < n
    ensures Content(n, data[put := c], put, get) == Content(n, data, put, get)
    ensures Content(n, data[put := c], Next(n, put), get) == Content(n, data, put, get) + [c]
  {
    var s, t := Content(n, data, put, get), Content(n, data[put := c], Next(n, put), get);
    forall i | 0 <= i < |t| ensures t[i] == (s + [c])[i] {
      if i < |s| { assert s[i] == data[if get + i >= n then get + i - n else get + i]; }
    }
    var u := Content(n, data[put := c], put, get);
    forall i | 0 <= i < |s| ensures u[i] == s[i] { }
  }

  lemma ContentGet(n: RingSize, data: seq<byte>, put: int, get: int)
    requires |data| == n && 0 <= put < n && 0 <= get < n && Pending(n, put, get) > 0
    ensures Content(n, data, put, get) == [data[get]] + Content(n, data, put, Next(n, get))
  {
    var s, t := Content(n, data, put, get), Content(n, data, put, Next(n, get));
    forall i | 0 <= i < |s| ensures s[i] == ([data[get]] + t)[i] {
      if i > 0 { assert t[i - 1] == data[if Next(n, get) + (i - 1) >= n then Next(n, get) + (i - 1) - n else Next(n, get) + (i - 1)]; }
    }
  }

  // ---- Calls that run to completion ----

  class Ring {
    const data: array<byte>
    const size: RingSize
    var putPtr: int
    var getPtr: int

    ghost predicate Valid()
      reads this, data
    {
      data.Length == size && 0 <= putPtr < size && 0 <= getPtr < size
    }

    ghost function Contents(): seq<byte>
      requires Valid()
      reads this, data
    {
      Content(size, data[..], putPtr, getPtr)
    }

    /** The ring between calls, as a shared state. */
    ghost function Idle(): (s: Shared)
      requires Valid()
      reads this, data
      ensures Shaped(size, s)
    {
      Shared(data[..], putPtr, getPtr, Outside, Away, [], [])
    }

    constructor (n: RingSize)
      ensures Valid() && fresh(data) && Contents() == [] && size == n
    {
      data := new byte[n](_ => 0);
      size := n;
      putPtr, getPtr := 0, 0;
    }

    /** ringbuf_put: appends a byte unless size - 1 bytes are pending. */
    method Put(c: byte) returns (ok: bool)
      requires Valid()
      modifies this`putPtr, data
      ensures Valid() && ok == (|old(Contents())| < size - 1)
      ensures Contents() == if ok then old(Contents()) + [c] else old(Contents())
      ensures ok ==> Repeat(size, old(Idle()), Produce(c), 3) == Idle().(accepted := [c])
      ensures !ok ==> Repeat(size, old(Idle()), Produce(c), 1) == Idle() == old(Idle())
    {
      if Pending(size, putPtr, getPtr) == size - 1 {
        return false;
      }
      ContentPut(size, data[..], putPtr, getPtr, c);
      data[putPtr] := c;
      putPtr := Next(size, putPtr);
      return true;
    }

    /** ringbuf_get: takes the oldest byte, or returns -1 if there is none. */
    method Get() returns (c: int)
      requires Valid()
      modifies this`getPtr
      ensures Valid()
      ensures old(Contents()) == [] ==> c == -1 && Contents() == []
      ensures old(Contents()) != [] ==> 0 <= c < 256 && [c as byte] + Contents() == old(Contents())
      ensures old(Contents()) != [] ==> Repeat(size, old(Idle()), Consume, 3) == Idle().(returned := [c as byte])
      ensures old(Contents()) == [] ==> Repeat(size, old(Idle()), Consume, 1) == Idle() == old(Idle())
    {
      if Pending(size, putPtr, getPtr) > 0 {
        ContentGet(size, data[..], putPtr, getPtr);
        c := data[getPtr];
        getPtr := Next(size, getPtr);
      } else {
        c := -1;
      }
    }

    method Elements() returns (n: int)
      requires Valid()
      ensures n == |Contents()| < size
    {
      n := Pending(size, putPtr, getPtr);
    }
  }

  // ---- Calls cut into atomic steps, in any interleaving ----

  /** Where the interrupt stands in ringbuf_put, and the process in ringbuf_get. */
  datatype Producer = Outside | Writing(c: byte) | Advancing(c: byte)
  datatype Consumer = Away | Reading | Leaving(c: byte)

  /** `accepted` are the bytes of puts that returned 1, `returned` those of gets that returned a byte. */
  datatype Shared = Shared(data: seq<byte>, put: int, get: int, producer: Producer, consumer: Consumer,
                           accepted: seq<byte>, returned: seq<byte>)

  /** One atomic step: of the producer, offering c if it is outside a call, or of the consumer. */
  datatype Turn = Produce(c: byte) | Consume

  function Start(n: RingSize): Shared {
    Shared(seq(n, _ => 0), 0, 0, Outside, Away, [], [])
  }

  predicate Shaped(n: RingSize, s: Shared) { |s.data| == n && 0 <= s.put < n && 0 <= s.get < n }

  function Step(n: RingSize, s: Shared, t: Turn): (s': Shared)
    requires Shaped(n, s)
    ensures Shaped(n, s')
  {
    match t
    case Produce(c) => (
      match s.producer
      case Outside => if Pending(n, s.put, s.get) == n - 1 then s else s.(producer := Writing(c))
      case Writing(b) => s.(data := s.data[s.put := b], producer := Advancing(b))
      case Advancing(b) => s.(put := Next(n, s.put), producer := Outside, accepted := s.accepted + [b]))
    case Consume =>
      match s.consumer
      case Away => if Pending(n, s.put, s.get) > 0 then s.(consumer := Reading) else s
      case Reading => s.(consumer := Leaving(s.data[s.get]))
      case Leaving(b) => s.(get := Next(n, s.get), consumer := Away, returned := s.returned + [b])
  }

  /** The same turn k times in a row. */
  function Repeat(n: RingSize, s: Shared, t: Turn, k: nat): (s': Shared)
    requires Shaped(n, s)
    ensures Shaped(n, s')
    decreases k
  {
    if k == 0 then s else Repeat(n, Step(n, s, t), t, k - 1)
  }

  function Run(n: RingSize, turns: seq<Turn>): (s: Shared)
    ensures Shaped(n, s)
  {
    if turns == [] then Start(n) else Step(n, Run(n, turns[..|turns| - 1]), turns[|turns| - 1])
  }

  /** What every interleaving keeps. */
  predicate Safe(n: RingSize, s: Shared)
    requires Shaped(n, s)
  {
    && s.accepted == s.returned + Content(n, s.data, s.put, s.get)
    && (!s.producer.Outside? ==> Pending(n, s.put, s.get) < n - 1)
    && (s.producer.Advancing? ==> s.data[s.put] == s.producer.c)
    && (!s.consumer.Away? ==> Pending(n, s.put, s.get) > 0)
    && (s.consumer.Leaving? ==> s.data[s.get] == s.consumer.c)
  }

  lemma ProducerSafe(n: RingSize, s: Shared, c: byte)
    requires Shaped(n, s) && Safe(n, s)
    ensures Safe(n, Step(n, s, Produce(c)))
  {
    hide Content;
    match s.producer
    case Outside =>
    case Writing(b) => ContentPut(n, s.data, s.put, s.get, b);
    case Advancing(b) =>
      ContentPut(n, s.data, s.put, s.get, b);
      assert s.data[s.put := b] == s.data;
  }

  lemma ConsumerSafe(n: RingSize, s: Shared)
    requires Shaped(n, s) && Safe(n, s)
    ensures Safe(n, Step(n, s, Consume))
  {
    hide Content;
    if s.consumer.Leaving? {
      ContentGet(n, s.data, s.put, s.get);
      assert s.returned + ([s.consumer.c] + Content(n, s.data, s.put, Next(n, s.get)))
        == s.returned + [s.consumer.c] + Content(n, s.data, s.put, Next(n, s.get));
    }
  }

  lemma StepSafe(n: RingSize, s: Shared, t: Turn)
    requires Shaped(n, s) && Safe(n, s)
    ensures Safe(n, Step(n, s, t))
  {
    match t
    case Produce(c) => ProducerSafe(n, s, c);
    case Consume => ConsumerSafe(n, s);
  }

  lemma {:induction false} AlwaysSafe(n: RingSize, turns: seq<Turn>)
    ensures Safe(n, Run(n, turns))
  {
    if turns != [] {
      AlwaysSafe(n, turns[..|turns| - 1]);
      StepSafe(n, Run(n, turns[..|turns| - 1]), turns[|turns| - 1]);
    }
  }

  /** The queue behind the shared state. */
  function Queue(n: RingSize, s: Shared): seq<byte>
    requires Shaped(n, s)
  {
    Content(n, s.data, s.put, s.get)
  }

  /**
   * Every atomic step, wherever the other side stands, is one of three on the queue: nothing, a byte appended
   * where there is room, or the oldest byte taken. A put is refused only while the queue is full, and a get
   * only while it is empty. So put and get take effect at one point each, as if they were atomic.
   */
  lemma StepIsAtomic(n: RingSize, s: Shared, t: Turn)
    requires Shaped(n, s) && Safe(n, s)
    ensures var s' := Step(n, s, t);
      || (Queue(n, s') == Queue(n, s) && s'.accepted == s.accepted && s'.returned == s.returned)
      || (s.producer.Advancing? && |Queue(n, s)| < n - 1 && Queue(n, s') == Queue(n, s) + [s.producer.c]
          && s'.accepted == s.accepted + [s.producer.c] && s'.returned == s.returned)
      || (s.consumer.Leaving? && Queue(n, s) == [s.consumer.c] + Queue(n, s')
          && s'.accepted == s.accepted && s'.returned == s.returned + [s.consumer.c])
    ensures t.Produce? && s.producer.Outside? ==> (Step(n, s, t) == s <==> |Queue(n, s)| == n - 1)
    ensures t.Consume? && s.consumer.Away? ==> (Step(n, s, t) == s <==> Queue(n, s) == [])
  {
    hide Content;
    match t
    case Produce(_) =>
      if s.producer.Writing? {
        ContentPut(n, s.data, s.put, s.get, s.producer.c);
      } else if s.producer.Advancing? {
        ContentPut(n, s.data, s.put, s.get, s.producer.c);
        assert s.data[s.put := s.producer.c] == s.data;
      }
    case Consume =>
      if s.consumer.Leaving? { ContentGet(n, s.data, s.put, s.get); }
  }

  /**
   * In every interleaving the bytes got are a prefix of the bytes put, at most size - 1 are pending,
   * and the slot being written is never the slot being read.
   */
  lemma RingIsFifo(n: RingSize, turns: seq<Turn>)
    ensures var s := Run(n, turns);
      && s.returned <= s.accepted && |s.accepted| - |s.returned| <= n - 1
      && !(s.producer.Writing? && s.consumer.Reading? && s.put == s.get)
  {
    AlwaysSafe(n, turns);
  }
}
