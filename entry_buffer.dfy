/** The fixed-capacity sample store (gov_bench.c, entry_t and entry_buffer_t
    with entry_buffer_create, entry_buffer_add and entry_buffer_destroy). */
module Buffer {
  import opened Uint64

  /** entry_t: one sample, the time offset and the inferred frequency. */
  datatype Entry = Entry(timeNsec: U64, freqHz: U64)

  /** sizeof(entry_t): two uint64_t fields, no padding. */
  const ENTRY_SIZE: U64 := 16

  /** entry_buffer_t. `entryArray` is null only after destroy. */
  class EntryBuffer {
    var entryCount: U64
    var entryIndex: U64
    var entryArray: array?<Entry>

    /** The fill index never passes the capacity, and the storage, while
        present, holds exactly `entryCount` entries. */
    ghost predicate Valid()
      reads this
    {
      entryIndex <= entryCount &&
      (entryArray == null ==> entryCount == 0) &&
      (entryArray != null ==> entryArray.Length == entryCount)
    }

    /** The entries added so far, in insertion order. */
    ghost function Entries(): seq<Entry>
      reads this, entryArray
      requires Valid()
    {
      if entryArray == null then [] else entryArray[..entryIndex]
    }

    /** entry_buffer_create: storage for exactly `entryCount` entries,
        nothing stored yet. */
    constructor Create(entryCount: U64)
      ensures Valid()
      ensures this.entryCount == entryCount && entryIndex == 0
      ensures entryArray != null && fresh(entryArray)
      ensures Entries() == []
    {
      this.entryCount := entryCount;
      entryIndex := 0;
      entryArray := new Entry[entryCount];
    }

    /** entry_buffer_add: writes `entry` into the next slot while there is
        one, and reports whether it did. */
    method Add(entry: Entry) returns (added: bool)
      requires Valid()
      modifies this, entryArray
      ensures Valid()
      ensures added <==> old(entryIndex) < old(entryCount)
      ensures entryCount == old(entryCount) && entryArray == old(entryArray)
      ensures entryIndex == if added then old(entryIndex) + 1 else old(entryIndex)
      ensures entryArray != null ==>
        entryArray[..] == if added then old(entryArray[..])[old(entryIndex) := entry] else old(entryArray[..])
      ensures Entries() == if added then old(Entries()) + [entry] else old(Entries())
    {
      if entryIndex < entryCount {
        entryArray[entryIndex] := entry;
        entryIndex := entryIndex + 1;
        added := true;
      } else {
        added := false;
      }
    }

    /** entry_buffer_destroy: releases the storage and zeroes both counters;
        every later add fails. */
    method Destroy()
      modifies this
      ensures Valid()
      ensures entryCount == 0 && entryIndex == 0 && entryArray == null
      ensures Entries() == []
    {
      entryArray := null;
      entryCount := 0;
      entryIndex := 0;
    }
  }

  /** The byte count entry_buffer_create passes to malloc, as written:
      sizeof(entry_t) * entry_count in size_t. */
  function AllocationBytes(entryCount: U64): (bytes: U64)
    ensures entryCount < MODULUS / ENTRY_SIZE ==> bytes == ENTRY_SIZE * entryCount
  {
    Mul(ENTRY_SIZE, entryCount)
  }

  /** From 2^60 entries on the size wraps: 2^60 entries request zero bytes,
      yet the buffer then accepts 2^60 adds. */
  lemma AllocationWraps()
    ensures AllocationBytes(0x1000_0000_0000_0000) == 0
  {
  }

  /** Any count whose size wraps gets storage for fewer entries than the
      buffer's capacity claims. */
  lemma {:induction false} AllocationShortWhenWrapped(entryCount: U64)
    requires entryCount >= MODULUS / ENTRY_SIZE
    ensures AllocationBytes(entryCount) / ENTRY_SIZE < entryCount
  {
  }
}
