/** List metadata and user data never interfere: what callers write into the objects they hold, and
    what one list writes, leaves every packed list and every other object alone. */
module Separation {
  import opened Sequences
  import opened Widths
  import opened PageHeapSpec
  import opened PackedLists
  import opened CflSpec
  import opened CflLaws
  import opened CflMemory

  /** The address lies in an object the list has handed out. */
  ghost predicate InLent(c: Cfl, a: nat) {
    exists o :: o in Outs(c) && InObject(a, o.start * PAGE_SIZE, c.size, o.idx)
  }

  /** Only words of handed out objects differ. */
  ghost predicate CallersWrite(c: Cfl, m: Memory, m': Memory) {
    forall a: nat | Word(m', a) != Word(m, a) :: InLent(c, a)
  }

  /** An object of a listed span. */
  ghost predicate ObjectOf(c: Cfl, k: nat, i: nat) {
    k < |c.spans| && i < c.spans[k].total
  }

  lemma OnPage(c: Cfl, h: Heap, k: nat, i: nat, a: nat)
    requires CflShape(c) && SpansInUse(c, h) && ObjectOf(c, k, i) && InObject(a, Base(c.spans[k]), c.size, i)
    ensures InSpan(h, c.spans[k].start, a / PAGE_SIZE) && h[c.spans[k].start] == SpanInfo(c.pages, c.size, false)
  {
    ObjectOnPages(c.spans[k].start, c.pages, c.size, i, a);
  }

  /** Two lists of different sizes have no byte of an object in common. */
  lemma ListsApart(c: Cfl, d: Cfl, h: Heap, k: nat, i: nat, a: nat)
    requires CflShape(c) && CflShape(d) && Disjoint(h) && SpansInUse(c, h) && SpansInUse(d, h) && c.size != d.size
    requires ObjectOf(c, k, i) && InObject(a, Base(c.spans[k]), c.size, i)
    ensures !InLent(d, a) && !OnPages(d, a)
  {
    OnPage(c, h, k, i, a);
    if o :| o in Outs(d) && InObject(a, o.start * PAGE_SIZE, d.size, o.idx) {
      var j :| 0 <= j < |d.spans| && d.spans[j].start == o.start && Outstanding(d.spans[j], o.idx);
      OnPage(d, h, j, o.idx, a);
    }
    var p := a / PAGE_SIZE;
    forall j | 0 <= j < |d.spans|
      ensures !(d.spans[j].start <= p < d.spans[j].start + d.pages)
    {
      assert InSpan(h, d.spans[j].start, p) <==> d.spans[j].start <= p < d.spans[j].start + d.pages;
    }
  }

  /** A free object of a list holds no byte of an object the list has handed out. */
  lemma FreeApart(c: Cfl, h: Heap, k: nat, i: nat, a: nat)
    requires CflShape(c) && Disjoint(h) && SpansInUse(c, h)
    requires ObjectOf(c, k, i) && i in c.spans[k].free && InObject(a, Base(c.spans[k]), c.size, i)
    ensures !InLent(c, a)
  {
    OnPage(c, h, k, i, a);
    if o :| o in Outs(c) && InObject(a, o.start * PAGE_SIZE, c.size, o.idx) {
      var j :| 0 <= j < |c.spans| && c.spans[j].start == o.start && Outstanding(c.spans[j], o.idx);
      OnPage(c, h, j, o.idx, a);
      ObjectsApart(i, o.idx, Base(c.spans[k]), c.size);
    }
  }

  /** Whatever callers write into the objects of list d, the packed lists of list c hold the same
      stacks: of the same list and of any other. */
  lemma CallersHarmless(c: Cfl, d: Cfl, h: Heap, m: Memory, m': Memory, k: nat, size: uint32, head: uint16)
    requires CflShape(c) && CflShape(d) && Disjoint(h) && SpansInUse(c, h) && SpansInUse(d, h)
    requires d == c || d.size != c.size
    requires k < |c.spans| && c.size == size >= NODE_SIZE && CallersWrite(d, m, m')
    requires IsList(m, Base(c.spans[k]), size, head, c.spans[k].free)
    ensures IsList(m', Base(c.spans[k]), size, head, c.spans[k].free)
  {
    var sp := c.spans[k];
    forall i | i in sp.free
      ensures SameObject(m, m', Base(sp), size, i)
    {
      forall a: nat | InObject(a, Base(sp), size, i)
        ensures Word(m, a) == Word(m', a)
      {
        if d == c { FreeApart(c, h, k, i, a); } else { ListsApart(c, d, h, k, i, a); }
      }
    }
    ListFrame(m, m', Base(sp), size, head, sp.free);
  }

  /** Whatever a list writes in one of its calls, the packed lists of a list of another size hold the
      same stacks and the objects it has handed out their contents. */
  lemma OtherSizesKept(c: Cfl, d: Cfl, h: Heap, m: Memory, m': Memory, k: nat, size: uint32, head: uint16)
    requires CflShape(c) && CflShape(d) && Disjoint(h) && SpansInUse(c, h) && SpansInUse(d, h) && d.size != c.size
    requires k < |c.spans| && c.size == size >= NODE_SIZE && Respects(d, m, m')
    requires IsList(m, Base(c.spans[k]), size, head, c.spans[k].free)
    ensures IsList(m', Base(c.spans[k]), size, head, c.spans[k].free)
    ensures forall i: nat | i < c.spans[k].total :: SameObject(m, m', Base(c.spans[k]), size, i)
  {
    var sp := c.spans[k];
    forall i: nat | i < sp.total
      ensures SameObject(m, m', Base(sp), size, i)
    {
      forall a: nat | InObject(a, Base(sp), size, i)
        ensures Word(m, a) == Word(m', a)
      {
        ListsApart(c, d, h, k, i, a);
      }
    }
    ListFrame(m, m', Base(sp), size, head, sp.free);
  }
}
