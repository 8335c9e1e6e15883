/** Laws of the boundary-tag heap: it stays tiled and coalesced, and blocks in use stay put, over
    single calls and over whole runs. */
module BoundaryTagLaws {
  import opened Widths
  import opened BoundaryTagSpec

  // ---- single operations ----

  /** Changing a block's flag moves no byte. */
  lemma MarkLaws(live: Live, lo: nat, hi: nat, b: nat, free: bool)
    requires ValidLive(live, lo, hi) && b in live && (live[b].mapped ==> !free)
    ensures ValidLive(live[b := live[b].(free := free)], lo, hi)
  {
    var live' := live[b := live[b].(free := free)];
    assert forall c, x :: Inside(live', c, x) <==> Inside(live, c, x);
    forall x: nat
      ensures x in HeapBytes(live') <==> x in HeapBytes(live)
    {
      if c: nat :| Inside(live, c, x) && !live[c].mapped { assert Inside(live', c, x); }
      if c: nat :| Inside(live', c, x) && !live'[c].mapped { assert Inside(live, c, x); }
    }
  }

  /** Putting one block with the bytes of another in its place. */
  lemma SwapOne(live: Live, lo: nat, hi: nat, b: nat, i: Info)
    requires ValidLive(live, lo, hi) && b in live && !live[b].mapped && !i.mapped && i.size <= live[b].size
    ensures var live' := live[b := i];
            && Disjoint(live') && FreshBytes(live', End(b, i.size), live[b].size - i.size)
            && HeapBytes(live') == Between(lo, hi) - Between(End(b, i.size), End(b, live[b].size))
  {
    var d, live' := live - {b}, live[b := i];
    assert d[b := i] == live';
    DisjointRemove(live, b);
    HeapRemove(live, b);
    FreshPart(d, b, OVERHEAD + live[b].size, b, OVERHEAD + i.size);
    FreshPart(d, b, OVERHEAD + live[b].size, End(b, i.size), live[b].size - i.size);
    DisjointAdd(d, b, i);
    HeapAdd(d, b, i);
    FreshAdd(d, End(b, i.size), live[b].size - i.size, b, i);
    forall x: nat | Within(x, b, End(b, live[b].size))
      ensures x in HeapBytes(live)
    {
      assert Inside(live, b, x);
    }
  }

  /** Block b is cut down to n bytes when more than n + OVERHEAD were in it, and a free block holds the rest, at
      least one byte of payload; otherwise b keeps all its bytes. No other block changes. */
  ghost predicate CutDown(live: Live, live': Live, b: nat, n: nat, free: bool) {
    && b in live
    && var i, x := live[b], b + OVERHEAD + n;
       if i.size > n + OVERHEAD then
         && x !in live && i.size - n - OVERHEAD >= 1
         && live' == live[b := Info(n, free, i.mapped)][x := Info(i.size - n - OVERHEAD, true, i.mapped)]
       else
         live' == live[b := Info(i.size, free, i.mapped)]
  }

  /** A split tiles the bytes of the block with two, or leaves it whole when they would not hold a second header,
      a second footer and one byte of payload. */
  lemma SplitLaws(live: Live, lo: nat, hi: nat, b: nat, n: nat)
    requires ValidLive(live, lo, hi) && b in live && !live[b].mapped
    ensures ValidLive(Split(live, b, n), lo, hi)
    ensures Splits(live, b, n) ==> End(b, n) !in live
    ensures CutDown(live, Split(live, b, n), b, n, live[b].free)
  {
    if Splits(live, b, n) {
      var live1, rest := live[b := live[b].(size := n)], Info(live[b].size - n - OVERHEAD, true, false);
      SwapOne(live, lo, hi, b, live[b].(size := n));
      DisjointAdd(live1, End(b, n), rest);
      HeapAdd(live1, End(b, n), rest);
      assert HeapBytes(live1[End(b, n) := rest]) == Between(lo, hi) by {
        forall x: nat | Within(x, End(b, n), End(b, live[b].size))
          ensures Within(x, lo, hi)
        {
          assert Inside(live, b, x) && x in HeapBytes(live);
        }
      }
    }
  }

  /** A merge covers the bytes of both blocks with one. */
  lemma MergeLaws(live: Live, lo: nat, hi: nat, l: nat, r: nat)
    requires ValidLive(live, lo, hi) && l in live && r in live && End(l, live[l].size) == r
    requires !live[l].mapped && !live[r].mapped
    ensures ValidLive(Merged(live, l, r), lo, hi)
  {
    var live' := Merged(live, l, r);
    var i := live'[l];
    var d := live - {l} - {r};
    assert d[l := i] == live';
    DisjointRemove(live, l);
    HeapRemove(live, l);
    DisjointRemove(live - {l}, r);
    HeapRemove(live - {l}, r);
    assert FreshBytes(d, l, OVERHEAD + i.size) by {
      forall c: nat, x: nat | Inside(d, c, x)
        ensures x < l || l + OVERHEAD + i.size <= x
      {
        assert Inside(live - {l}, c, x);
      }
    }
    DisjointAdd(d, l, i);
    HeapAdd(d, l, i);
    forall x: nat | Within(x, l, End(l, i.size))
      ensures Within(x, lo, hi)
    {
      assert Inside(live, if x < r then l else r, x) && x in HeapBytes(live);
    }
  }

  lemma LeftUnique(live: Live, l: nat, b: nat)
    requires Disjoint(live) && FreeEndingAt(live, l, b)
    ensures Left(live, b) == l < b
  {
    forall x: nat | FreeEndingAt(live, x, b)
      ensures x == l
    {
      assert Inside(live, x, b - 1) && Inside(live, l, b - 1);
    }
  }

  /** The left neighbour a block merges with is the one before it in the heap, if that is free. */
  lemma LeftIs(live: Live, lo: nat, hi: nat, b: nat, p: nat)
    requires ValidLive(live, lo, hi) && b in live && !live[b].mapped
    requires b != lo ==> p in live && End(p, live[p].size) == b
    ensures Left(live, b) == if b != lo && live[p].free then p else b
  {
    assert b != lo && live[p].free ==> FreeEndingAt(live, p, b);
    if l: nat :| FreeEndingAt(live, l, b) {
      assert Inside(live, l, b - 1) && b - 1 in HeapBytes(live);
      assert Inside(live, b, b) && b in HeapBytes(live);
      if b != lo {
        assert Inside(live, p, b - 1);
        LeftUnique(live, l, b);
      }
    }
  }

  lemma NoneBeyond(live: Live, lo: nat, hi: nat, b: nat)
    requires ValidLive(live, lo, hi) && IsFree(live, b)
    ensures b < hi
  {
    assert Inside(live, b, b) && b in HeapBytes(live);
  }

  /** Returning a block is marking it free, merging it into a free left neighbour and merging a free
      right neighbour into the result. */
  lemma ReturnSteps(live: Live, b: nat)
    requires Disjoint(live) && InUse(live, b) && !live[b].mapped && MappedInUse(live)
    ensures var marked, o, e := live[b := live[b].(free := true)], Left(live, b), End(b, live[b].size);
            && o in marked && (o != b ==> FreeEndingAt(live, o, b))
            && var joined := if o == b then marked else Merged(marked, o, b);
               && End(o, joined[o].size) == e && joined[o].free && !joined[o].mapped
               && (IsFree(joined, e) <==> IsFree(live, e)) && (e in joined ==> joined[e] == live[e])
               && Returned(live, b) == if IsFree(joined, e) then Merged(joined, o, e) else joined
  {
    var o := Left(live, b);
    assert o != b ==> FreeEndingAt(live, o, b);
    assert Inside(live, b, b) && (o in live ==> Inside(live, o, o));
  }

  /** Returning keeps the heap tiled and coalesced, frees exactly the block, and moves no other
      block in use. */
  lemma ReturnedLaws(live: Live, lo: nat, hi: nat, b: nat)
    requires ValidLive(live, lo, hi) && Coalesced(live) && InUse(live, b) && !live[b].mapped
    ensures ValidLive(Returned(live, b), lo, hi) && Coalesced(Returned(live, b))
    ensures forall x: nat :: InUse(Returned(live, b), x) <==> InUse(live, x) && x != b
    ensures forall x: nat | InUse(live, x) && x != b :: Returned(live, b)[x] == live[x]
  {
    var marked, o, e := live[b := live[b].(free := true)], Left(live, b), End(b, live[b].size);
    ReturnSteps(live, b);
    MarkLaws(live, lo, hi, b, true);
    var joined := if o == b then marked else Merged(marked, o, b);
    if o != b { MergeLaws(marked, lo, hi, o, b); }
    if IsFree(joined, e) { MergeLaws(joined, lo, hi, o, e); }
    ReturnedPairs(live, b);
  }

  lemma ReturnedPairs(live: Live, b: nat)
    requires Disjoint(live) && MappedInUse(live) && Coalesced(live) && InUse(live, b) && !live[b].mapped
    ensures Coalesced(Returned(live, b))
  {
    var o, e, live' := Left(live, b), End(b, live[b].size), Returned(live, b);
    assert o != b ==> FreeEndingAt(live, o, b);
    forall l: nat, r: nat | FreePair(live', l, r)
      ensures false
    {
      assert l != o && r != o ==> FreePair(live, l, r);
      if l != o && r == o {
        assert FreeEndingAt(live, l, o);
        if o == b { LeftUnique(live, l, b); } else { assert FreePair(live, l, o); }
      } else if l == o {
        assert IsFree(live, e) ==> FreePair(live, e, r);
      }
    }
  }

  /** Taking a free block keeps the heap tiled and coalesced and makes exactly it in use, cut down to the bytes
      asked for when the rest makes a block of its own. */
  lemma TakenLaws(live: Live, lo: nat, hi: nat, b: nat, n: nat)
    requires ValidLive(live, lo, hi) && Coalesced(live) && IsFree(live, b) && live[b].size >= n
    ensures ValidLive(Taken(live, b, n), lo, hi) && Coalesced(Taken(live, b, n))
    ensures forall x: nat :: InUse(Taken(live, b, n), x) <==> InUse(live, x) || x == b
    ensures forall x: nat | InUse(live, x) :: Taken(live, b, n)[x] == live[x]
    ensures n <= Taken(live, b, n)[b].size <= live[b].size
    ensures Taken(live, b, n)[b].size == n <==> live[b].size == n || live[b].size > n + OVERHEAD
    ensures CutDown(live, Taken(live, b, n), b, n, false)
  {
    SplitLaws(live, lo, hi, b, n);
    MarkLaws(Split(live, b, n), lo, hi, b, false);
    var live', e := Taken(live, b, n), End(b, n);
    forall l: nat, r: nat | FreePair(live', l, r)
      ensures FreePair(live, if l == e && Splits(live, b, n) then b else l, r)
    {
      if Splits(live, b, n) && r == e {
        assert Inside(live', l, e - 1) && Inside(live', b, e - 1);
      }
    }
  }

  /** A block in use at fresh bytes: past the end of the heap, or mapped. */
  lemma CreatedLaws(live: Live, lo: nat, hi: nat, a: nat, i: Info)
    requires ValidLive(live, lo, hi) && Coalesced(live) && !i.free
    requires FreshBytes(live, a, OVERHEAD + i.size) && (!i.mapped ==> a == hi)
    ensures a !in live && ValidLive(live[a := i], lo, if i.mapped then hi else End(a, i.size))
            && Coalesced(live[a := i])
  {
    DisjointAdd(live, a, i);
    HeapAdd(live, a, i);
    assert !i.mapped ==> Between(lo, hi) + Between(a, End(a, i.size)) == Between(lo, End(a, i.size));
    var live' := live[a := i];
    assert forall l: nat, r: nat | FreePair(live', l, r) :: FreePair(live, l, r);
  }

  /** Giving up a block: a mapped one, or the one that ends the heap. */
  lemma RemovedLaws(live: Live, lo: nat, hi: nat, b: nat)
    requires ValidLive(live, lo, hi) && Coalesced(live) && b in live
    requires live[b].mapped || End(b, live[b].size) == hi
    ensures ValidLive(live - {b}, lo, if live[b].mapped then hi else b) && Coalesced(live - {b})
  {
    DisjointRemove(live, b);
    HeapRemove(live, b);
    if !live[b].mapped {
      NextBlock(live, lo, hi, b);
      assert Between(lo, hi) - Between(b, hi) == Between(lo, b);
    }
    var live' := live - {b};
    assert forall l: nat, r: nat | FreePair(live', l, r) :: FreePair(live, l, r);
  }

  lemma UnlinkedLaws(live: Live, lo: nat, hi: nat, b: nat)
    requires ValidLive(live, lo, hi) && Coalesced(live) && b in live
    ensures ValidLive(live[b := live[b].(free := false)], lo, hi) && Coalesced(live[b := live[b].(free := false)])
  {
    MarkLaws(live, lo, hi, b, false);
    var live' := live[b := live[b].(free := false)];
    assert forall l: nat, r: nat | FreePair(live', l, r) :: FreePair(live, l, r);
  }

  // ---- runs ----

  datatype Call =
    | Take(b: nat, n: nat)        // allocate from the free block b
    | Grow(size: nat)             // allocate by moving the program break
    | Map(at: nat, size: nat)     // allocate by mmap
    | Return(b: nat)              // deallocate inside the heap
    | Shrink(b: nat)              // deallocate at the end of the heap
    | Stay(b: nat)                // the same, but the break would not move
    | Unmap(b: nat)               // deallocate a mapped block

  /** Live blocks, and the bounds of the heap. */
  datatype Heap = Heap(live: Live, lo: nat, hi: nat)

  /** Block b as deallocate treats it: off the free list first when it is on it. */
  ghost function Claimed(live: Live, b: nat): Live
    requires b in live
  {
    live[b := live[b].(free := false)]
  }

  ghost predicate Allowed(h: Heap, c: Call) {
    match c
    case Take(b, n) => IsFree(h.live, b) && h.live[b].size >= n
    case Grow(size) => FreshBytes(h.live, h.hi, OVERHEAD + size)
    case Map(at, size) => FreshBytes(h.live, at, OVERHEAD + size)
    case Return(b) => b in h.live && !h.live[b].mapped && End(b, h.live[b].size) != h.hi
    case Shrink(b) => b in h.live && !h.live[b].mapped && End(b, h.live[b].size) == h.hi
    case Stay(b) => b in h.live && !h.live[b].mapped && End(b, h.live[b].size) == h.hi
    case Unmap(b) => b in h.live && h.live[b].mapped
  }

  ghost function Effect(h: Heap, c: Call): Heap
    requires Allowed(h, c)
  {
    match c
    case Take(b, n) => h.(live := Taken(h.live, b, n))
    case Grow(size) => Heap(h.live[h.hi := Info(size, false, false)], h.lo, End(h.hi, size))
    case Map(at, size) => h.(live := h.live[at := Info(size, false, true)])
    case Return(b) => h.(live := Returned(Claimed(h.live, b), b))
    case Shrink(b) => Heap(h.live - {b}, h.lo, b)
    case Stay(b) => h.(live := Claimed(h.live, b))
    case Unmap(b) => h.(live := h.live - {b})
  }

  /** The heap the constructor leaves: one free chunk, or nothing when the break would not move. */
  ghost predicate Started(h: Heap) {
    || (h.live == map[] && h.lo == h.hi)
    || (h.live == map[h.lo := Info(INITIAL_CHUNK, true, false)] && h.hi == End(h.lo, INITIAL_CHUNK))
  }

  ghost predicate Run(hs: seq<Heap>, calls: seq<Call>) {
    && |hs| == |calls| + 1 && Started(hs[0])
    && forall i | 0 <= i < |calls| :: Allowed(hs[i], calls[i]) && hs[i + 1] == Effect(hs[i], calls[i])
  }

  ghost predicate Sound(h: Heap) {
    ValidLive(h.live, h.lo, h.hi) && Coalesced(h.live)
  }

  lemma StartedSound(h: Heap)
    requires Started(h)
    ensures Sound(h)
  {
    var none: Live := map[];
    assert HeapBytes(none) == iset{} == Between(h.lo, h.lo);
    if h.lo in h.live {
      var i := Info(INITIAL_CHUNK, true, false);
      assert none[h.lo := i] == h.live;
      DisjointAdd(none, h.lo, i);
      HeapAdd(none, h.lo, i);
      assert HeapBytes(h.live) == Between(h.lo, h.hi);
      assert forall l: nat, r: nat | FreeEndingAt(h.live, l, r) :: r !in h.live;
    }
  }

  lemma EffectSound(h: Heap, c: Call)
    requires Sound(h) && Allowed(h, c)
    ensures Sound(Effect(h, c))
  {
    match c
    case Take(b, n) => TakenLaws(h.live, h.lo, h.hi, b, n);
    case Grow(size) => CreatedLaws(h.live, h.lo, h.hi, h.hi, Info(size, false, false));
    case Map(at, size) => CreatedLaws(h.live, h.lo, h.hi, at, Info(size, false, true));
    case Return(b) =>
      UnlinkedLaws(h.live, h.lo, h.hi, b);
      ReturnedLaws(Claimed(h.live, b), h.lo, h.hi, b);
    case Shrink(b) => RemovedLaws(h.live, h.lo, h.hi, b);
    case Stay(b) => UnlinkedLaws(h.live, h.lo, h.hi, b);
    case Unmap(b) => RemovedLaws(h.live, h.lo, h.hi, b);
  }

  /** In every run the blocks from the program break tile the heap exactly, no two blocks overlap,
      and no two physical neighbours are both free. */
  lemma {:induction false} RunSound(hs: seq<Heap>, calls: seq<Call>)
    requires Run(hs, calls)
    ensures Sound(hs[|calls|])
    decreases |calls|
  {
    if calls == [] {
      StartedSound(hs[0]);
    } else {
      var k := |calls| - 1;
      RunSound(hs[..k + 1], calls[..k]);
      EffectSound(hs[k], calls[k]);
    }
  }

  ghost predicate GivesUp(c: Call, x: nat) {
    (c.Return? || c.Shrink? || c.Unmap?) && c.b == x
  }

  lemma InUseKept(h: Heap, c: Call, x: nat)
    requires Sound(h) && Allowed(h, c) && InUse(h.live, x) && !GivesUp(c, x)
    ensures InUse(Effect(h, c).live, x) && Effect(h, c).live[x] == h.live[x]
  {
    match c
    case Take(b, n) => TakenLaws(h.live, h.lo, h.hi, b, n);
    case Grow(size) => CreatedLaws(h.live, h.lo, h.hi, h.hi, Info(size, false, false));
    case Map(at, size) => CreatedLaws(h.live, h.lo, h.hi, at, Info(size, false, true));
    case Return(b) =>
      UnlinkedLaws(h.live, h.lo, h.hi, b);
      ReturnedLaws(Claimed(h.live, b), h.lo, h.hi, b);
    case _ =>
  }

  /** In every run a block in use keeps its place and its size from call k on until it is itself
      deallocated. */
  lemma {:induction false} InUseStays(hs: seq<Heap>, calls: seq<Call>, k: nat, x: nat)
    requires Run(hs, calls) && k <= |calls| && InUse(hs[k].live, x)
    requires forall i | k <= i < |calls| :: !GivesUp(calls[i], x)
    ensures InUse(hs[|calls|].live, x) && hs[|calls|].live[x] == hs[k].live[x]
    decreases |calls| - k
  {
    if k < |calls| {
      var n := |calls| - 1;
      InUseStays(hs[..n + 1], calls[..n], k, x);
      RunSound(hs[..n + 1], calls[..n]);
      InUseKept(hs[n], calls[n], x);
    }
  }

  /** No byte of a block's payload belongs to the header, payload or footer of another: writing to
      one's own memory reaches no tag. */
  lemma PayloadsApart(live: Live, lo: nat, hi: nat, b: nat, c: nat, x: nat)
    requires ValidLive(live, lo, hi) && b in live && Payload(b) <= x < FooterAt(b, live[b].size)
    ensures c in live && c != b ==> x < c || End(c, live[c].size) <= x
    ensures x >= b + HEADER_SIZE && x + FOOTER_SIZE < End(b, live[b].size)
  {
    assert Inside(live, b, x);
    assert c in live && c <= x < End(c, live[c].size) ==> Inside(live, c, x);
  }
}
