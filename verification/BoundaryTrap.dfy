/** A program of the old allocator (old/old_design.hpp) whose last request never returns. */
module BoundaryTrap {
  import opened Widths
  import opened Sequences
  import opened BoundaryTagSpec
  import opened BoundaryTagLaws
  import opened BoundaryTags

  /** allocate(n) when the block at place k of the list is the first from the head that fits. */
  method TakeAt(a: OldAllocator, n: nat, k: nat)
    requires a.Valid() && a.prevSearchEnd == None && k < |a.free| && n <= Size(a.live, a.free[k])
    requires forall j | 0 <= j < k :: Size(a.live, a.free[j]) < n
    modifies a
    ensures a.Valid() && a.hi == old(a.hi) && old(a.free)[k] in old(a.live)
    ensures a.live == Taken(old(a.live), old(a.free)[k], n) && a.free == TakenList(old(a.live), old(a.free), k, n)
    ensures a.prevSearchEnd == Before(old(a.free), k)
  {
    hide ValidLive, Tagged, Chained, Exact, FreeBytes, Coalesced, Taken, TakenList;
    FreeBytesDrop(a.live, a.free, k);
    var result := a.Allocate(n, None);
  }

  /** deallocate of a block in use without free neighbours, inside the heap. */
  method GiveAlone(a: OldAllocator, b: nat)
    requires a.Valid() && InUse(a.live, b) && !a.live[b].mapped && b !in a.free && End(b, a.live[b].size) != a.hi
    requires !IsFree(a.live, End(b, a.live[b].size)) && forall l: nat :: !FreeEndingAt(a.live, l, b)
    modifies a
    ensures a.Valid() && a.hi == old(a.hi) && a.live == old(a.live)[b := old(a.live)[b].(free := true)]
    ensures a.free == [b] + old(a.free) && a.prevSearchEnd == old(a.prevSearchEnd)
  {
    hide ValidLive, Tagged, Chained, Exact, FreeBytes, Coalesced;
    ghost var live := a.live;
    NothingRemoved(a.prevSearchEnd, a.free, b);
    assert Claimed(live, b) == live;
    assert Left(live, b) == b;
    assert Returned(live, b) == live[b := live[b].(free := true)];
    var ok := a.Deallocate(b, true);
  }

  function Used(size: nat): Info {
    Info(size, false, false)
  }

  function Unused(size: nat): Info {
    Info(size, true, false)
  }

  /** Cuts the next 100 bytes off the free rest of the chunk. */
  method CutNext(a: OldAllocator, rest: nat)
    requires a.Valid() && a.prevSearchEnd == None && a.free == [rest]
    requires rest in a.live && a.live[rest].free && !a.live[rest].mapped && a.live[rest].size > 140
    modifies a
    ensures a.Valid() && a.prevSearchEnd == None && a.free == [rest + 140] && a.hi == old(a.hi)
    ensures a.live == old(a.live)[rest := Used(100)][rest + 140 := Unused(old(a.live)[rest].size - 140)]
  {
    hide ValidLive, Tagged, Chained, Exact, Coalesced;
    TakeAt(a, 100, 0);
  }

  /** Four blocks of 100 bytes and the rest of the chunk. */
  method FourBlocks() returns (a: OldAllocator)
    ensures fresh(a) && a.Valid() && a.prevSearchEnd == None && a.free == [560] && a.hi == 4136
    ensures a.live == map[0 := Used(100), 140 := Used(100), 280 := Used(100), 420 := Used(100), 560 := Unused(3536)]
  {
    hide ValidLive, Tagged, Chained, Exact, Coalesced, OldAllocator.Valid;
    a := new OldAllocator(0, true);
    CutNext(a, 0);
    CutNext(a, 140);
    CutNext(a, 280);
    CutNext(a, 420);
  }

  /** The first and third of them given back. */
  method TwoGivenBack() returns (a: OldAllocator)
    ensures fresh(a) && a.Valid() && a.prevSearchEnd == None && a.free == [280, 0, 560] && a.hi == 4136
    ensures a.live == map[0 := Unused(100), 140 := Used(100), 280 := Unused(100), 420 := Used(100), 560 := Unused(3536)]
  {
    hide ValidLive, Tagged, Chained, Exact, Coalesced, OldAllocator.Valid;
    a := FourBlocks();
    GiveAlone(a, 0);
    GiveAlone(a, 280);
  }

  /** Then the rest of the chunk taken: the search counts as ended on the tail of the list, and a
      request for 150 bytes never returns although the list holds 200. */
  method ReachTrap() returns (a: OldAllocator)
    ensures a.Valid() && a.Trapped(150) && a.RunsForever(150) && a.availableBytes == 200
  {
    hide ValidLive, Tagged, Chained, Exact, Coalesced;
    a := TwoGivenBack();
    TakeAt(a, 3536, 2);
    assert a.free == [280, 0] && a.free[1..] == [0] && a.free[1..][1..] == [];
    assert [0][1..] == [] && [280, 0][1..] == [0];
    assert FreeBytes(a.live, [0]) == 100;
    assert FreeBytes(a.live, [280, 0]) == 200;
    a.Forever(150);
  }
}
