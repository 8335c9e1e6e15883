/** One CPU's slab (slabs.hpp): a stack of pointers per size class, all in one pointer array. */
module PerCpuSlabs {
  import opened Widths
  import opened SizeClasses
  import opened SlabLayout

  class Slabs {
    const table: seq<SizeClass>
    const offsets: array<uint32>
    const capacities: array<uint32>
    const currents: array<uint16>
    const pointers: array<nat>

    ghost predicate Valid()
      reads this, offsets, capacities, currents, pointers
    {
      && Divisible(table)
      && offsets.Length == |table| + 1 && capacities.Length == currents.Length == |table|
      && (pointers as object) != offsets && (pointers as object) != capacities && (pointers as object) != currents
      && (currents as object) != offsets && (currents as object) != capacities
      && pointers.Length == Offset(table, |table|)
      && (forall i | 0 <= i <= |table| :: offsets[i] == Offset(table, i))
      && forall i | 0 <= i < |table| :: capacities[i] == Capacity(table, i) && currents[i] <= capacities[i]
    }

    lemma SliceBounds(i: nat)
      requires Divisible(table) && i < |table|
      ensures Offset(table, i) + Capacity(table, i) <= Offset(table, |table|)
    {
      SlicesApart(table, i, |table|);
    }

    /** The stack of one class: its slice of the pointer array up to its count. */
    ghost function Stack(i: nat): (s: seq<nat>)
      requires Valid() && i < |table|
      reads this, offsets, capacities, currents, pointers
      ensures |s| == currents[i] <= Capacity(table, i)
    {
      SliceBounds(i);
      pointers[Offset(table, i)..Offset(table, i) + currents[i]]
    }

    constructor (table: seq<SizeClass>)
      requires Divisible(table)
      ensures Valid() && this.table == table
      ensures forall i | 0 <= i < |table| :: Stack(i) == []
      ensures fresh(currents) && fresh(pointers)
    {
      this.table := table;
      var offs := ComputeSlabOffsets(table);
      var caps := ComputeSlabCapacities(table, offs);
      offsets, capacities := offs, caps;
      currents := new uint16[|table|](_ => 0);
      pointers := new nat[offs[|table|]](_ => 0);
    }

    /** fallback_allocate: pops the top pointer of a class. */
    method Pop(sc: nat) returns (ptr: Option<nat>)
      requires Valid() && sc < |table|
      modifies currents
      ensures Valid()
      ensures ptr == if old(Stack(sc)) == [] then None else Some(old(Stack(sc))[|old(Stack(sc))| - 1])
      ensures Stack(sc) == if ptr.None? then old(Stack(sc)) else old(Stack(sc))[..|old(Stack(sc))| - 1]
      ensures forall j | 0 <= j < |table| && j != sc :: Stack(j) == old(Stack(j))
    {
      hide Offset, Capacity;
      SliceBounds(sc);
      var cur := currents[sc];
      if cur == 0 { return None; }
      var idx := offsets[sc] + cur - 1;
      ptr := Some(pointers[idx]);
      currents[sc] := cur - 1;
    }

    /** fallback_deallocate: pushes a pointer of a class while its slice has room. */
    method Push(sc: nat, mem: nat) returns (ok: bool)
      requires Valid() && sc < |table|
      modifies currents, pointers
      ensures Valid()
      ensures ok == (|old(Stack(sc))| < Capacity(table, sc))
      ensures Stack(sc) == if ok then old(Stack(sc)) + [mem] else old(Stack(sc))
      ensures forall j | 0 <= j < |table| && j != sc :: Stack(j) == old(Stack(j))
    {
      hide Offset, Capacity;
      SliceBounds(sc);
      var cur := currents[sc];
      if cur >= capacities[sc] { return false; }
      var idx := offsets[sc] + cur;
      CapacityFits(sc);
      pointers[idx] := mem;
      currents[sc] := cur + 1;
      forall j | 0 <= j < |table| && j != sc
        ensures Stack(j) == old(Stack(j))
      {
        SliceBounds(j);
        SlicesDisjoint(table, sc, j);
      }
      return true;
    }

    lemma CapacityFits(sc: nat)
      requires Divisible(table) && sc < |table|
      ensures Capacity(table, sc) <= UINT16_MAX
    {
      if sc > 0 { CapacityLaws(table, sc); }
    }
  }
}
