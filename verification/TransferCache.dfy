/** The cache between the CPUs and one central free list (transfer_cache.hpp): a bounded stack
    that moves pointers in batches. */
module TransferCaches {
  import opened Widths

  class TransferCache {
    const slots: array<nat>
    var usedSlots: nat

    ghost predicate Valid()
      reads this
    {
      usedSlots <= slots.Length == TRANSFER_CACHE_CAPACITY
    }

    ghost function Contents(): (s: seq<nat>)
      requires Valid()
      reads this, slots
      ensures |s| == usedSlots
    {
      slots[..usedSlots]
    }

    constructor ()
      ensures Valid() && Contents() == [] && fresh(slots)
    {
      slots := new nat[TRANSFER_CACHE_CAPACITY](_ => 0);
      usedSlots := 0;
    }

    /** Stores as many of the batch's pointers, from the front, as there is room for. */
    method InsertRange(batch: array<nat>, n: nat) returns (inserted: nat)
      requires Valid() && n <= batch.Length && batch != slots
      modifies this`usedSlots, slots
      ensures Valid()
      ensures inserted == (if n < TRANSFER_CACHE_CAPACITY - |old(Contents())| then n
                           else TRANSFER_CACHE_CAPACITY - |old(Contents())|)
      ensures Contents() == old(Contents()) + batch[..inserted]
    {
      var space := slots.Length - usedSlots;
      inserted := if n < space then n else space;
      if inserted > 0 {
        forall i | 0 <= i < inserted {
          slots[usedSlots + i] := batch[i];
        }
        usedSlots := usedSlots + inserted;
      }
    }

    /** Moves up to n pointers off the top into the batch. */
    method RemoveRange(batch: array<nat>, n: nat) returns (removed: nat)
      requires Valid() && n <= batch.Length && batch != slots
      modifies this`usedSlots, batch
      ensures Valid()
      ensures removed == (if n < |old(Contents())| then n else |old(Contents())|)
      ensures old(Contents()) == Contents() + batch[..removed]
      ensures batch[removed..] == old(batch[removed..])
    {
      removed := if n < usedSlots then n else usedSlots;
      if removed > 0 {
        usedSlots := usedSlots - removed;
        forall i | 0 <= i < removed {
          batch[i] := slots[usedSlots + i];
        }
      }
    }
  }
}
