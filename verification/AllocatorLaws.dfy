/** Where every object is: the pointers outside the central free lists, and the objects those
    lists have lent out, agree one to one. */
module AllocatorLaws {
  import opened Arithmetic
  import opened Counting
  import opened Widths
  import opened PageHeapSpec
  import opened PageHeapLaws
  import opened PackedLists
  import opened CflSpec
  import opened CflLaws
  import opened CflMemory
  import opened SizeClasses
  import opened SlabLayout
  import opened AllocatorSteps

  // ---- pointers outside the lists ----

  /** How often p occurs in a thread's local variables. */
  ghost function Held(th: Thread, p: nat): nat {
    (if th.hand == Some(p) then 1 else 0) + Count(th.batch, p)
  }

  ghost function InThreads(threads: seq<Thread>, p: nat): (r: seq<nat>)
    ensures |r| == |threads| && forall i | 0 <= i < |r| :: r[i] == Held(threads[i], p)
  {
    seq(|threads|, i requires 0 <= i < |threads| => Held(threads[i], p))
  }

  /** How often p occurs in a transfer cache, a CPU's slab, a thread or a caller's hands. */
  ghost function Outside(s: State, p: nat): nat {
    Sum(InStacks(s.caches, p)) + Sum(InSlabs(s.slabs, p)) + Sum(InThreads(s.threads, p)) + s.user[p]
  }

  lemma ThreadDelta(s: State, t: nat, th: Thread, p: nat)
    requires t < |s.threads|
    ensures Outside(Update(s, t, th), p) + Held(s.threads[t], p) == Outside(s, p) + Held(th, p)
    ensures Held(s.threads[t], p) <= Outside(s, p)
  {
    hide Held, Sum;
    SumUpdate(InThreads(s.threads, p), t, Held(th, p));
    assert InThreads(s.threads[t := th], p) == InThreads(s.threads, p)[t := Held(th, p)];
  }

  lemma CacheDelta(s: State, c: nat, slots: seq<nat>, p: nat)
    requires c < |s.caches|
    ensures Outside(s.(caches := s.caches[c := slots]), p) + Count(s.caches[c], p) == Outside(s, p) + Count(slots, p)
    ensures Count(s.caches[c], p) <= Outside(s, p)
  {
    hide Count, Sum;
    SumUpdate(InStacks(s.caches, p), c, Count(slots, p));
    assert InStacks(s.caches[c := slots], p) == InStacks(s.caches, p)[c := Count(slots, p)];
  }

  lemma SlabDelta(s: State, cpu: nat, c: nat, stack: seq<nat>, p: nat)
    requires cpu < |s.slabs| && c < |s.slabs[cpu]|
    ensures Outside(s.(slabs := s.slabs[cpu := s.slabs[cpu][c := stack]]), p) + Count(s.slabs[cpu][c], p)
            == Outside(s, p) + Count(stack, p)
    ensures Count(s.slabs[cpu][c], p) <= Outside(s, p)
  {
    StackUpdate(s.slabs, cpu, c, stack, p);
  }

  lemma PopDelta(s: State, cpu: nat, c: nat, p: nat)
    requires SlabTop(s, cpu, c).Some?
    ensures Outside(s, p) == Outside(AfterPop(s, cpu, c), p) + if SlabTop(s, cpu, c).value == p then 1 else 0
  {
    hide Outside, Count;
    var stack := s.slabs[cpu][c];
    var n := |stack| - 1;
    SlabDelta(s, cpu, c, stack[..n], p);
    CountJoin(stack[..n], [stack[n]], p);
    CountOne(stack[n], p);
    assert stack == stack[..n] + [stack[n]];
  }

  lemma PushDelta(s: State, cpu: nat, c: nat, q: nat, p: nat)
    requires cpu < |s.slabs| && c < |s.slabs[cpu]|
    ensures Outside(AfterPush(s, cpu, c, q), p) == Outside(s, p) + if q == p then 1 else 0
  {
    hide Outside, Count;
    SlabDelta(s, cpu, c, s.slabs[cpu][c] + [q], p);
    CountJoin(s.slabs[cpu][c], [q], p);
    CountOne(q, p);
  }

  // ---- objects lent out ----

  /** p is an object of the list's span at page a that has been handed out. */
  ghost predicate Lends(c: Cfl, a: nat, p: nat) {
    exists i: nat :: Out(c, Object(a, i)) && Address(Object(a, i), c.size) == p
  }

  ghost predicate Lent(c: Cfl, p: nat) {
    exists a: nat :: Lends(c, a, p)
  }

  ghost predicate LentAny(cfls: seq<Cfl>, p: nat) {
    exists c: nat :: c < |cfls| && Lent(cfls[c], p)
  }

  /** The objects of a span have 16-bit indices. */
  ghost predicate Indexed(sc: SizeClass) {
    sc.size > 0 ==> ObjectsPerSpan(sc.size, sc.pages) <= UINT16_MAX
  }

  lemma AllIndexed(table: seq<SizeClass>)
    requires Runs(table)
    ensures forall c | 0 <= c < |table| :: Indexed(table[c])
  {
  }

  ghost predicate ListOk(sc: SizeClass, c: Cfl, h: Heap) {
    c.size == sc.size && c.pages == sc.pages && CflOk(c) && SpansInUse(c, h)
  }

  /** Every in-use span belongs to one of the lists, whose spans are all in use. */
  ghost predicate Backed(table: seq<SizeClass>, h: Heap, cfls: seq<Cfl>) {
    && |cfls| == |table| && ValidHeap(h)
    && (forall c | 0 <= c < |cfls| :: ListOk(table[c], cfls[c], h))
    && forall a | InUse(h, a) :: HasHome(cfls, a)
  }

  ghost predicate HasHome(cfls: seq<Cfl>, a: nat) {
    exists c: nat :: c < |cfls| && Listed(cfls[c], a)
  }

  /** A lent object lies inside its span, at the index its address computes. */
  lemma LendsPlace(sc: SizeClass, c: Cfl, h: Heap, a: nat, p: nat)
    requires ListOk(sc, c, h) && Lends(c, a, p) && Indexed(sc)
    ensures a in h && h[a] == SpanInfo(sc.pages, sc.size, false) && sc.size > 0
    ensures InSpan(h, a, p / PAGE_SIZE) && a * PAGE_SIZE <= p && p + sc.size <= (a + sc.pages) * PAGE_SIZE
    ensures var i := PtrToIndex(p, a * PAGE_SIZE, sc.size);
            var k := Position(c.spans, a);
            k < |c.spans| && Outstanding(c.spans[k], i) && Address(Object(a, i), sc.size) == p
  {
    var i: nat :| Out(c, Object(a, i)) && Address(Object(a, i), c.size) == p;
    OutPosition(c, Object(a, i));
    var k := Position(c.spans, a);
    var n := ObjectsPerSpan(c.size, c.pages);
    ObjectOnPages(a, c.pages, c.size, i, p);
    MulMonotone(i + 1, n, c.size);
    DivTimes(c.pages * PAGE_SIZE, c.size);
    assert (i + 1) * c.size == i * c.size + c.size;
    IndexRoundTrip(i, a * PAGE_SIZE, c.size);
  }

  /** No pointer is lent by two lists, nor from two spans. */
  lemma LentOnce(table: seq<SizeClass>, h: Heap, cfls: seq<Cfl>, c: nat, a: nat, d: nat, b: nat, p: nat)
    requires Runs(table) && Backed(table, h, cfls) && c < |cfls| && d < |cfls|
    requires Lends(cfls[c], a, p) && Lends(cfls[d], b, p)
    ensures c == d && a == b
  {
    LendsPlace(table[c], cfls[c], h, a, p);
    LendsPlace(table[d], cfls[d], h, b, p);
  }

  ghost predicate Apart(p: nat, n: nat, q: nat, m: nat) {
    p + n <= q || q + m <= p
  }

  /** Two different pointers lent, by the same list or by two, are blocks without a common byte. */
  lemma BlocksApart(table: seq<SizeClass>, h: Heap, cfls: seq<Cfl>, c: nat, a: nat, p: nat, d: nat, b: nat, q: nat)
    requires Runs(table) && Backed(table, h, cfls) && c < |cfls| && d < |cfls|
    requires Lends(cfls[c], a, p) && Lends(cfls[d], b, q) && p != q
    ensures Apart(p, table[c].size, q, table[d].size)
  {
    hide Lends, ListOk, WellOrdered, Out, Runs, Indexed;
    AllIndexed(table);
    LendsPlace(table[c], cfls[c], h, a, p);
    LendsPlace(table[d], cfls[d], h, b, q);
    if a == b {
      IndicesApart(PtrToIndex(p, a * PAGE_SIZE, table[c].size), PtrToIndex(q, a * PAGE_SIZE, table[c].size),
                   a * PAGE_SIZE, table[c].size);
    } else {
      SpansApart(h, a, b);
    }
  }

  lemma IndicesApart(i: nat, j: nat, base: nat, size: nat)
    ensures i != j ==> Apart(IndexToPtr(i, base, size), size, IndexToPtr(j, base, size), size)
  {
    MulMonotone(i + 1, j, size);
    MulMonotone(j + 1, i, size);
  }

  lemma SpansApart(h: Heap, a: nat, b: nat)
    requires ValidHeap(h) && a in h && b in h && a != b
    ensures a + h[a].pages <= b || b + h[b].pages <= a
  {
    var x := if a < b then b else a;
    assert !(InSpan(h, a, x) && InSpan(h, b, x));
  }

  // ---- the steps that change what is lent ----

  lemma ListsInUse(c: Cfl, h: Heap)
    ensures SpansInUse(c, h) <==> forall a | Listed(c, a) :: a in h && h[a] == SpanInfo(c.pages, c.size, false)
  {
    assert forall k | 0 <= k < |c.spans| :: Listed(c, c.spans[k].start);
  }

  /** The page heap grants a list spans nobody used, and touches no other in-use span. */
  lemma GrantedLaws(h: Heap, h': Heap, sc: SizeClass, c: Cfl, got: Option<nat>, os: Option<nat>)
    requires ValidHeap(h) && ListOk(sc, c, h) && Granted(h, h', c, got, os)
    ensures ValidHeap(h')
    ensures forall x | InUse(h, x) :: x in h' && h'[x] == h[x]
    ensures forall x: nat :: InUse(h', x) <==> InUse(h, x) || got == Some(x)
    ensures got.Some? ==> !InUse(h, got.value) && h'[got.value] == SpanInfo(c.pages, c.size, false)
  {
    if got.Some? {
      ServedLaws(h, h', got.value, c.pages, c.size, os);
    }
  }

  /** Replacing list d keeps the lists backed when the new one is and the others' spans stay. */
  lemma BackedReplace(table: seq<SizeClass>, h: Heap, h': Heap, cfls: seq<Cfl>, d: nat, c': Cfl)
    requires Backed(table, h, cfls) && d < |cfls| && ValidHeap(h') && ListOk(table[d], c', h')
    requires forall x | InUse(h, x) && !Listed(cfls[d], x) :: x in h' && h'[x] == h[x]
    requires forall x | InUse(h', x) :: Listed(c', x) || (InUse(h, x) && !Listed(cfls[d], x))
    requires forall c, x | 0 <= c < |cfls| && c != d && Listed(cfls[c], x) :: !Listed(cfls[d], x)
    ensures Backed(table, h', cfls[d := c'])
  {
    hide CflOk, ValidHeap, Listed;
    var cfls' := cfls[d := c'];
    forall c | 0 <= c < |cfls'|
      ensures ListOk(table[c], cfls'[c], h')
    {
      if c != d {
        ListsInUse(cfls[c], h);
        ListsInUse(cfls[c], h');
      }
    }
    forall a | InUse(h', a)
      ensures HasHome(cfls', a)
    {
      if Listed(c', a) {
        assert Listed(cfls'[d], a);
      } else {
        var c: nat :| c < |cfls| && Listed(cfls[c], a);
        assert Listed(cfls'[c], a);
      }
    }
  }

  /** A span is on one list only. */
  lemma ListedOnce(table: seq<SizeClass>, h: Heap, cfls: seq<Cfl>, c: nat, d: nat, a: nat)
    requires WellOrdered(table) && Backed(table, h, cfls) && c < |cfls| && d < |cfls|
    requires Listed(cfls[c], a) && Listed(cfls[d], a)
    ensures c == d && InUse(h, a)
  {
    ListsInUse(cfls[c], h);
    ListsInUse(cfls[d], h);
  }

  /** Lent pointers, when one more object is out. */
  lemma LendsMore(c: Cfl, c': Cfl, o: Object)
    requires c'.size == c.size && Outs(c') == Outs(c) + iset{o}
    ensures forall a: nat, p: nat :: Lends(c', a, p) <==> Lends(c, a, p) || (a == o.start && p == Address(o, c.size))
  {
    forall a: nat, p: nat
      ensures Lends(c', a, p) <==> Lends(c, a, p) || (a == o.start && p == Address(o, c.size))
    {
      assert o in Outs(c') && o == Object(o.start, o.idx);
      if i: nat :| Out(c, Object(a, i)) && Address(Object(a, i), c.size) == p {
        assert Object(a, i) in Outs(c');
      }
      if i: nat :| Out(c', Object(a, i)) && Address(Object(a, i), c.size) == p {
        assert Object(a, i) in Outs(c');
      }
    }
  }

  /** Lent pointers, when one fewer object is out. */
  lemma LendsLess(c: Cfl, c': Cfl, o: Object)
    requires c.size > 0 && c'.size == c.size && Outs(c') == Outs(c) - iset{o}
    ensures forall a: nat, p: nat :: Lends(c', a, p) <==> Lends(c, a, p) && !(a == o.start && p == Address(o, c.size))
  {
    forall a: nat, p: nat
      ensures Lends(c', a, p) <==> Lends(c, a, p) && !(a == o.start && p == Address(o, c.size))
    {
      if i: nat :| Out(c, Object(a, i)) && Address(Object(a, i), c.size) == p {
        assert Object(a, i) in Outs(c);
        IndicesApart(i, o.idx, o.start * PAGE_SIZE, c.size);
        assert Object(a, i) != o ==> Object(a, i) in Outs(c');
      }
      if i: nat :| Out(c', Object(a, i)) && Address(Object(a, i), c.size) == p {
        assert Object(a, i) in Outs(c');
        IndicesApart(i, o.idx, o.start * PAGE_SIZE, c.size);
      }
    }
  }

  /** A list that allocated, over the heap that served it. */
  lemma AllocatedList(sc: SizeClass, h: Heap, h': Heap, c: Cfl, got: Option<nat>, os: Option<nat>)
    requires ValidHeap(h) && ListOk(sc, c, h) && Granted(h, h', c, got, os)
    ensures CflOk(c) && (got.Some? ==> Position(c.spans, got.value) == |c.spans|)
    ensures ListOk(sc, AllocateOp(c, got).0, h')
    ensures forall a: nat :: Listed(AllocateOp(c, got).0, a) <==> Listed(c, a) || got == Some(a)
  {
    GrantedLaws(h, h', sc, c, got, os);
    ListsInUse(c, h);
    AllocateOk(c, got);
    forall a: nat { AllocateListed(c, got, a); }
    AllocateListed(c, got, 0);
    ListsInUse(AllocateOp(c, got).0, h');
  }

  /** A list's allocate keeps all lists backed. */
  lemma AllocateBacked(table: seq<SizeClass>, h: Heap, h': Heap, cfls: seq<Cfl>, d: nat, got: Option<nat>,
                       os: Option<nat>)
    requires WellOrdered(table) && Backed(table, h, cfls) && d < |cfls| && Granted(h, h', cfls[d], got, os)
    ensures CflOk(cfls[d]) && Backed(table, h', cfls[d := AllocateOp(cfls[d], got).0])
    ensures got.Some? ==> Position(cfls[d].spans, got.value) == |cfls[d].spans|
  {
    hide AllocateOp, CflOk, ValidHeap, SpansInUse, Listed, Served, Chosen, WellOrdered;
    var c := cfls[d];
    GrantedLaws(h, h', table[d], c, got, os);
    AllocatedList(table[d], h, h', c, got, os);
    hide Granted, ListOk;
    forall e, x | 0 <= e < |cfls| && e != d && Listed(cfls[e], x)
      ensures !Listed(c, x)
    {
      if Listed(c, x) { ListedOnce(table, h, cfls, e, d, x); }
    }
    BackedReplace(table, h, h', cfls, d, AllocateOp(c, got).0);
  }

  /** The heap after a list freed an object of its span at a. */
  ghost function HeapAfterFree(h: Heap, c: Cfl, a: nat): Heap
    requires Listed(c, a) && a in h
  {
    if Releases(c, Position(c.spans, a)) then GiveBack(h, a) else h
  }

  lemma HeapAfterFreeLaws(h: Heap, c: Cfl, a: nat)
    requires ValidHeap(h) && Listed(c, a) && InUse(h, a)
    ensures var h', gone := HeapAfterFree(h, c, a), Releases(c, Position(c.spans, a));
            && ValidHeap(h')
            && (forall x: nat :: InUse(h', x) <==> InUse(h, x) && !(gone && x == a))
            && (forall x: nat | InUse(h, x) && !(gone && x == a) :: x in h' && h'[x] == h[x])
  {
    if Releases(c, Position(c.spans, a)) {
      GiveBackLaws(h, a);
    }
  }

  /** A list's deallocate keeps all lists backed. */
  lemma FreeBacked(table: seq<SizeClass>, h: Heap, cfls: seq<Cfl>, d: nat, a: nat, idx: nat)
    requires WellOrdered(table) && Backed(table, h, cfls) && d < |cfls| && Listed(cfls[d], a)
    requires Outstanding(cfls[d].spans[Position(cfls[d].spans, a)], idx)
    ensures InUse(h, a)
    ensures Backed(table, HeapAfterFree(h, cfls[d], a), cfls[d := FreeOp(cfls[d], Position(cfls[d].spans, a), idx)])
  {
    var c, k := cfls[d], Position(cfls[d].spans, a);
    ListsInUse(c, h);
    HeapAfterFreeLaws(h, c, a);
    FreeOk(c, k, idx);
    forall x: nat { FreeListed(c, k, idx, x); }
    var c', h' := FreeOp(c, k, idx), HeapAfterFree(h, c, a);
    assert c'.size == c.size && c'.pages == c.pages;
    hide FreeOp, HeapAfterFree, CflOk, ValidHeap, SpansInUse, Listed, Outstanding;
    ListsInUse(c', h');
    forall e, x | 0 <= e < |cfls| && e != d && Listed(cfls[e], x)
      ensures !Listed(c, x)
    {
      if Listed(c, x) { ListedOnce(table, h, cfls, e, d, x); }
    }
    BackedReplace(table, h, h', cfls, d, c');
  }
}
