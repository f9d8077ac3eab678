/** os/lib/memb.c: a pool of equal blocks. A block is its number in the pool. */
module MembLib {
  import opened Sequences

  /** Number of blocks among the first i that are free. */
  function FreeBelow(count: seq<nat>, i: nat): nat
    requires i <= |count|
  {
    if i == 0 then 0 else FreeBelow(count, i - 1) + if count[i - 1] == 0 then 1 else 0
  }

  class Memb {
    const count: array<nat>

    constructor (num: nat)
      ensures fresh(count) && count.Length == num && forall i | 0 <= i < num :: count[i] == 0
    {
      count := new nat[num](_ => 0);
    }

    /** Takes the first free block, or returns NULL if there is none. */
    method Alloc() returns (block: int)
      modifies count
      ensures block == NULL ==> count[..] == old(count[..]) && forall i | 0 <= i < count.Length :: count[i] > 0
      ensures block != NULL ==>
        && 0 <= block < count.Length && old(count[block]) == 0 && count[..] == old(count[..])[block := 1]
        && forall i | 0 <= i < block :: count[i] > 0
    {
      for i := 0 to count.Length
        invariant count[..] == old(count[..]) && forall j | 0 <= j < i :: count[j] > 0
      {
        if count[i] == 0 {
          count[i] := count[i] + 1;
          return i;
        }
      }
      return NULL;
    }

    /** Gives back one reference to a block; returns the references left, or -1 if it is not a block of the pool. */
    method Free(block: int) returns (left: int)
      modifies count
      ensures !(0 <= block < count.Length) ==> left == -1 && count[..] == old(count[..])
      ensures 0 <= block < count.Length ==>
        left == count[block] == (if old(count[block]) > 0 then old(count[block]) - 1 else 0) && count[..] == old(count[..])[block := count[block]]
    {
      for i := 0 to count.Length
        invariant count[..] == old(count[..]) && (0 <= block < count.Length ==> i <= block)
      {
        if i == block {
          if count[i] > 0 {
            count[i] := count[i] - 1;
          }
          return count[i];
        }
      }
      return -1;
    }

    method NumFree() returns (free: nat)
      ensures free == FreeBelow(count[..], count.Length)
    {
      free := 0;
      for i := 0 to count.Length
        invariant free == FreeBelow(count[..], i)
      {
        if count[i] == 0 {
          free := free + 1;
        }
      }
    }
  }
}
