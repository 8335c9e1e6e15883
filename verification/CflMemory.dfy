/** Where the objects of a central free list lie in memory, and what it may write there. */
module CflMemory {
  import opened Sequences
  import opened Arithmetic
  import opened Widths
  import opened PageHeapSpec
  import opened PackedLists
  import opened CflSpec
  import opened CflLaws

  /** The list's spans are in-use spans of the page heap. */
  ghost predicate SpansInUse(c: Cfl, h: Heap) {
    forall k | 0 <= k < |c.spans| ::
      c.spans[k].start in h && h[c.spans[k].start] == SpanInfo(c.pages, c.size, false)
  }

  /** An object of a span lies on the span's pages. */
  lemma ObjectOnPages(start: nat, pages: nat, size: nat, i: nat, a: nat)
    requires size > 0 && i < ObjectsPerSpan(size, pages) && InObject(a, start * PAGE_SIZE, size, i)
    ensures start <= a / PAGE_SIZE < start + pages
  {
    var n := ObjectsPerSpan(size, pages);
    assert n * size <= pages * PAGE_SIZE;
    MulMonotone(i + 1, n, size);
    MulMonotone(0, i, size);
    assert (i + 1) * size == i * size + size;
    assert start * PAGE_SIZE <= a < (start + pages) * PAGE_SIZE;
  }

  /** Words that differ lie in objects of the span that nobody holds. */
  ghost predicate WritesWithin(m: Memory, m': Memory, sp: SpanState, size: nat) {
    forall a: nat | Word(m', a) != Word(m, a) ::
      exists i: nat :: i < sp.total && !Outstanding(sp, i) && InObject(a, Base(sp), size, i)
  }

  lemma WritesJoin(m: Memory, m1: Memory, m2: Memory, sp: SpanState, sp1: SpanState, size: nat)
    requires WritesWithin(m, m1, sp, size) && WritesWithin(m1, m2, sp1, size)
    requires sp1.start == sp.start && sp1.total == sp.total
    requires forall i: nat | Outstanding(sp, i) :: Outstanding(sp1, i)
    ensures WritesWithin(m, m2, sp, size)
  {
  }

  /** Words of one object that nobody holds differ only there. */
  lemma WritesObject(m: Memory, m': Memory, a: nat, b: nat, sp: SpanState, size: nat, i: nat)
    requires SameBut(m, m', a, b) && i < sp.total && !Outstanding(sp, i)
    requires InObject(a, Base(sp), size, i) && InObject(b, Base(sp), size, i)
    ensures WritesWithin(m, m', sp, size)
  {
  }

  /** The memories differ only inside object i. */
  ghost predicate WritesInObject(m: Memory, m': Memory, base: nat, size: nat, i: nat) {
    forall a: nat | Word(m', a) != Word(m, a) :: InObject(a, base, size, i)
  }

  lemma OthersSame(m: Memory, m': Memory, base: nat, size: nat, i: nat)
    requires WritesInObject(m, m', base, size, i)
    ensures forall j: nat | j != i :: SameObject(m, m', base, size, j)
  {
    forall j: nat | j != i
      ensures SameObject(m, m', base, size, j)
    {
      ObjectsApart(i, j, base, size);
    }
  }

  /** Objects that are held keep their contents. */
  lemma OutstandingKept(m: Memory, m': Memory, sp: SpanState, size: nat, i: nat)
    requires WritesWithin(m, m', sp, size) && Outstanding(sp, i)
    ensures SameObject(m, m', Base(sp), size, i)
  {
    forall a: nat | InObject(a, Base(sp), size, i)
      ensures Word(m, a) == Word(m', a)
    {
      if Word(m', a) != Word(m, a) {
        var j: nat :| j < sp.total && !Outstanding(sp, j) && InObject(a, Base(sp), size, j);
        ObjectsApart(i, j, Base(sp), size);
      }
    }
  }

  /** Memory off the span's pages is kept. */
  lemma OffPagesKept(m: Memory, m': Memory, sp: SpanState, size: nat, pages: nat, a: nat)
    requires size > 0 && sp.total == ObjectsPerSpan(size, pages) && WritesWithin(m, m', sp, size)
    requires !(sp.start <= a / PAGE_SIZE < sp.start + pages)
    ensures Word(m', a) == Word(m, a)
  {
    if Word(m', a) != Word(m, a) {
      var i: nat :| i < sp.total && !Outstanding(sp, i) && InObject(a, Base(sp), size, i);
      ObjectOnPages(sp.start, pages, size, i, a);
    }
  }

  /** Writing in one span keeps the free lists of the others. */
  lemma OtherListKept(m: Memory, m': Memory, h: Heap, c: Cfl, k: nat, w: SpanState, j: nat, size: uint32, head: uint16)
    requires CflShape(c) && Disjoint(h) && SpansInUse(c, h) && c.size == size >= NODE_SIZE
    requires k < |c.spans| && j < |c.spans| && j != k
    requires WritesWithin(m, m', w, size) && w.start == c.spans[k].start && w.total == c.spans[k].total
    requires IsList(m, Base(c.spans[j]), size, head, c.spans[j].free)
    ensures IsList(m', Base(c.spans[j]), size, head, c.spans[j].free)
  {
    var sp' := c.spans[j];
    forall i | i in sp'.free
      ensures SameObject(m, m', Base(sp'), size, i)
    {
      OtherObjectKept(c, h, k, w, j, m, m', i);
    }
    ListFrame(m, m', Base(sp'), size, head, sp'.free);
  }

  lemma {:induction false} FreeCountReplace(spans: seq<SpanState>, k: nat, sp: SpanState)
    requires k < |spans|
    ensures FreeCount(spans[k := sp]) + |spans[k].free| == FreeCount(spans) + |sp.free|
  {
    if k > 0 {
      assert spans[k := sp][1..] == spans[1..][k - 1 := sp];
      FreeCountReplace(spans[1..], k - 1, sp);
    }
  }

  lemma {:induction false} FreeCountDrop(spans: seq<SpanState>, k: nat)
    requires k < |spans|
    ensures FreeCount(spans[..k] + spans[k + 1..]) + |spans[k].free| == FreeCount(spans)
  {
    if k == 0 {
      assert spans[..k] + spans[k + 1..] == spans[1..];
    } else {
      assert (spans[..k] + spans[k + 1..])[1..] == spans[1..][..k - 1] + spans[1..][k..];
      FreeCountDrop(spans[1..], k - 1);
    }
  }

  /** The address lies on a page of one of the list's spans. */
  ghost predicate OnPages(c: Cfl, a: nat) {
    exists k :: 0 <= k < |c.spans| && c.spans[k].start <= a / PAGE_SIZE < c.spans[k].start + c.pages
  }

  /** A change of memory that respects the objects held from `c` and all memory of others. */
  ghost predicate Respects(c: Cfl, m: Memory, m': Memory) {
    && (forall o | o in Outs(c) :: SameObject(m, m', o.start * PAGE_SIZE, c.size, o.idx))
    && (forall a: nat | !OnPages(c, a) :: Word(m', a) == Word(m, a))
  }

  lemma RespectsSame(c: Cfl, m: Memory)
    ensures Respects(c, m, m)
  {
  }

  /** Writing only objects of span k that nobody holds respects everybody else. */
  lemma SpanRespects(c: Cfl, h: Heap, k: nat, m: Memory, m': Memory)
    requires CflShape(c) && Disjoint(h) && SpansInUse(c, h) && k < |c.spans|
    requires WritesWithin(m, m', c.spans[k], c.size)
    ensures Respects(c, m, m')
  {
    var sp, w := c.spans[k], c.spans[k];
    forall o | o in Outs(c)
      ensures SameObject(m, m', o.start * PAGE_SIZE, c.size, o.idx)
    {
      var j :| 0 <= j < |c.spans| && c.spans[j].start == o.start && Outstanding(c.spans[j], o.idx);
      if j == k {
        OutstandingKept(m, m', sp, c.size, o.idx);
      } else {
        OtherObjectKept(c, h, k, w, j, m, m', o.idx);
      }
    }
    forall a: nat | !OnPages(c, a)
      ensures Word(m', a) == Word(m, a)
    {
      OffPagesKept(m, m', sp, c.size, c.pages, a);
    }
  }

  lemma OtherObjectKept(c: Cfl, h: Heap, k: nat, w: SpanState, j: nat, m: Memory, m': Memory, i: nat)
    requires CflShape(c) && Disjoint(h) && SpansInUse(c, h)
    requires k < |c.spans| && j < |c.spans| && j != k && i < c.spans[j].total
    requires WritesWithin(m, m', w, c.size) && w.start == c.spans[k].start && w.total == c.spans[k].total
    ensures SameObject(m, m', Base(c.spans[j]), c.size, i)
  {
    var sp' := c.spans[j];
    forall a: nat | InObject(a, Base(sp'), c.size, i)
      ensures Word(m, a) == Word(m', a)
    {
      ObjectOnPages(sp'.start, c.pages, c.size, i, a);
      assert InSpan(h, sp'.start, a / PAGE_SIZE);
      assert !InSpan(h, w.start, a / PAGE_SIZE);
      OffPagesKept(m, m', w, c.size, c.pages, a);
    }
  }

  // ---- over several calls ----

  /** Objects `outs` and all memory off the list's pages are as they were. */
  ghost predicate Preserves(outs: iset<Object>, c: Cfl, m: Memory, m': Memory) {
    && (forall o | o in outs :: SameObject(m, m', o.start * PAGE_SIZE, c.size, o.idx))
    && (forall a: nat | !OnPages(c, a) :: Word(m', a) == Word(m, a))
  }

  /** One more call, of a list `d` that covers at most the pages of `c'`. */
  lemma PreservesJoin(outs: iset<Object>, c: Cfl, outs': iset<Object>, c': Cfl, d: Cfl, m: Memory, m1: Memory,
                      m2: Memory)
    requires Preserves(outs, c, m, m1) && Respects(d, m1, m2) && c.size == c'.size == d.size
    requires outs' <= outs && outs' <= Outs(d)
    requires forall a: nat | OnPages(c, a) || OnPages(d, a) :: OnPages(c', a)
    ensures Preserves(outs', c', m, m2)
  {
    forall o | o in outs'
      ensures SameObject(m, m2, o.start * PAGE_SIZE, c.size, o.idx)
    {
      assert SameObject(m, m1, o.start * PAGE_SIZE, c.size, o.idx);
      assert SameObject(m1, m2, o.start * PAGE_SIZE, c.size, o.idx);
    }
  }

  lemma PreservesBoth(outs: iset<Object>, c: Cfl, more: iset<Object>, c': Cfl, m: Memory, m1: Memory, m2: Memory)
    requires Preserves(outs, c, m, m1) && Preserves(more, c', m1, m2) && c.size == c'.size && outs <= more
    requires forall a: nat | OnPages(c, a) :: OnPages(c', a)
    ensures Preserves(outs, c', m, m2)
  {
    forall o | o in outs
      ensures SameObject(m, m2, o.start * PAGE_SIZE, c.size, o.idx)
    {
      assert SameObject(m, m1, o.start * PAGE_SIZE, c.size, o.idx);
      assert SameObject(m1, m2, o.start * PAGE_SIZE, c.size, o.idx);
    }
  }

  lemma PreservesNothing(outs: iset<Object>, c: Cfl, m: Memory)
    ensures Preserves(outs, c, m, m)
  {
  }

  /** A list covers the pages of its listed spans. */
  lemma PagesByListing(c: Cfl, c': Cfl)
    requires c.pages == c'.pages && forall start: nat | Listed(c, start) :: Listed(c', start)
    ensures forall a: nat | OnPages(c, a) :: OnPages(c', a)
  {
    forall a: nat | OnPages(c, a)
      ensures OnPages(c', a)
    {
      var k :| 0 <= k < |c.spans| && c.spans[k].start <= a / PAGE_SIZE < c.spans[k].start + c.pages;
      assert Listed(c, c.spans[k].start);
      var j := Position(c'.spans, c.spans[k].start);
      assert c'.spans[j].start == c.spans[k].start;
    }
  }

  // ---- when allocating fails ----

  /** Nothing can help a list that has no object left: the class is none, or too long for its spans, or
      page heap and OS have no pages. */
  ghost predicate Starved(c: Cfl, h: Heap, os: Option<nat>) {
    c.size == 0 || c.pages * PAGE_SIZE < c.size || c.pages == 0 || (os.None? && !AnyFits(h, c.pages))
  }

  /** No span of the list has a free or uncarved object. */
  ghost predicate NoObject(c: Cfl) {
    forall k | 0 <= k < |c.spans| :: !HasAvailable(c.spans[k])
  }

  /** The list has no object left to give, and nothing can help it. */
  ghost predicate Spent(c: Cfl, h: Heap, os: Option<nat>) {
    NoObject(c) && Starved(c, h, os)
  }

  /** What asking the page heap, when the list had to, may have given. */
  ghost predicate Granted(h: Heap, h': Heap, c: Cfl, got: Option<nat>, os: Option<nat>) {
    && (os.Some? ==> FreshPages(h, os.value, c.pages))
    && (got.Some? ==> Asks(c) && Served(h, h', got.value, c.pages, c.size, os))
    && (got.None? ==> h' == h && (Asks(c) ==> !AnyFits(h, c.pages) && os.None?))
  }

  /** allocate fails if and only if no listed span has a free or uncarved object and nothing can help;
      the heap then still has nothing, unless the class is too long for its spans. */
  lemma AllocateStarved(c: Cfl, h: Heap, h': Heap, got: Option<nat>, os: Option<nat>)
    requires CflOk(c) && Granted(h, h', c, got, os) && (got.Some? ==> Position(c.spans, got.value) == |c.spans|)
    ensures AllocateOp(c, got).1.None? <==>
              (forall k | 0 <= k < |c.spans| :: !HasAvailable(c.spans[k])) && Starved(c, h, os)
    ensures AllocateOp(c, got).1.None? ==> Starved(AllocateOp(c, got).0, h', os)
  {
    AllocateComplete(c, got);
  }
}
