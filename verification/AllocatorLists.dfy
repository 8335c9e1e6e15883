/** The lists of all classes at work (allocator.hpp): one page heap, one memory, and on every locked
    section of a list the calls of its class. They do what the steps over memory say. */
module AllocatorLists {
  import opened Sequences
  import opened Widths
  import opened PageHeapSpec
  import opened PageHeapLaws
  import opened PageHeaps
  import opened PackedLists
  import opened CflSpec
  import opened CflLaws
  import opened CflMemory
  import opened Separation
  import opened CentralFreeLists
  import opened SizeClasses
  import opened SlabLayout
  import opened AllocatorSteps
  import opened AllocatorLaws
  import opened AllocatorRuns
  import opened AllocatorSafety
  import opened AllocatorMemory

  class FreeLists {
    const table: seq<SizeClass>
    const pageHeap: PageHeap
    const ram: Ram
    const lists: seq<CentralFreeList>   // by class

    constructor (table: seq<SizeClass>)
      requires Runs(table)
      ensures Wired() && Valid() && fresh(pageHeap) && fresh(ram) && pageHeap.h == map[] && this.table == table
      ensures forall c | 0 <= c < |lists| :: lists[c].st == Cfl(table[c].size, table[c].pages, [], None)
    {
      hide Runs, CentralFreeList.Valid, PageHeap.Valid;
      var ph := new PageHeap();
      var memory := new Ram();
      var made: seq<CentralFreeList> := [];
      for i := 0 to |table|
        invariant |made| == i && ph.h == map[] && fresh(ph) && fresh(memory) && ph.Valid()
        invariant forall c | 0 <= c < i ::
                    && made[c].Valid() && made[c].pageHeap == ph && made[c].ram == memory
                    && made[c].size == table[c].size && made[c].pages == table[c].pages
                    && made[c].st == Cfl(table[c].size, table[c].pages, [], None)
        invariant forall c, d | 0 <= c < d < i :: made[c] != made[d]
      {
        ClassFits(table, i);
        var list := new CentralFreeList(ph, memory, table[i].size, table[i].pages);
        made := made + [list];
      }
      this.table, pageHeap, ram, lists := table, ph, memory, made;
    }

    static lemma ClassFits(table: seq<SizeClass>, c: nat)
      requires Runs(table) && c < |table|
      ensures table[c].size > 0 && table[c].pages > 0 ==>
                NODE_SIZE <= table[c].size < UINT32_MAX && ObjectsPerSpan(table[c].size, table[c].pages) <= UINT16_MAX
    {
    }

    /** One list a class, all over the same page heap and memory. */
    ghost predicate Wired() {
      && Runs(table) && |lists| == |table|
      && (forall c | 0 <= c < |lists| ::
            && lists[c].pageHeap == pageHeap && lists[c].ram == ram
            && lists[c].size == table[c].size && lists[c].pages == table[c].pages)
      && forall c, d | 0 <= c < d < |lists| :: lists[c] != lists[d]
    }

    ghost predicate Valid()
      requires Wired()
      reads *
    {
      forall c | 0 <= c < |lists| :: lists[c].Valid()
    }

    /** Each in-use span's freelist_head, by its first page. */
    ghost function Heads(): map<nat, uint16>
      reads pageHeap, pageHeap.spans.Values
    {
      map a: nat | a in pageHeap.spans && InUse(pageHeap.h, a) :: pageHeap.spans[a].freelistHead
    }

    /** The lists as values. */
    ghost function Values(): (r: seq<Cfl>)
      reads lists
      ensures |r| == |lists| && forall c | 0 <= c < |lists| :: r[c] == lists[c].st
    {
      seq(|lists|, c requires 0 <= c < |lists| reads lists => lists[c].st)
    }

    /** The lists, page heap and memory are those of the step system's state. */
    ghost predicate Shows(w: World)
      reads lists, pageHeap, ram, pageHeap.spans.Values
    {
      w.s.heap == pageHeap.h && w.m == ram.words && w.heads == Heads() && w.s.cfls == Values()
    }

    // ---- one locked section ----

    /** A section of the list of one size that keeps itself valid keeps the others valid. `during` is
        that list while it writes. */
    twostate lemma OthersValid(during: Cfl)
      requires Wired() && old(Valid()) && pageHeap.Valid()
      requires forall c | 0 <= c < |lists| ::
                 if table[c].size == during.size then lists[c].Valid()
                 else unchanged(lists[c]) && forall s | s in lists[c].objs :: s.Same()
      requires forall c | 0 <= c < |lists| && table[c].size != during.size ::
                 Placed(lists[c].st, lists[c].objs, pageHeap.h, pageHeap.spans)
      requires CflShape(during) && Disjoint(old(pageHeap.h))
      requires SpansInUse(during, pageHeap.h) || SpansInUse(during, old(pageHeap.h))
      requires Respects(during, old(ram.words), ram.words)
      ensures Valid()
    {
      hide CentralFreeList.Valid, Placed, CflShape, Disjoint, SpansInUse, Respects, Runs, PageHeap.Valid;
      forall c | 0 <= c < |lists| && table[c].size != during.size
        ensures lists[c].Valid()
      {
        lists[c].Undisturbed(during);
      }
    }

    lemma DifferentSizes(c: nat, d: nat)
      requires Wired() && c < |lists| && d < |lists|
      ensures c != d ==> lists[c].size == table[c].size != table[d].size == lists[d].size
    {
      hide Divisible;
      if c != d { SizesDiffer(table, c, d); }
    }

    /** List c as the step system sees it. */
    lemma Seen(c: nat)
      requires Wired() && Valid() && c < |lists|
      ensures ListOk(table[c], lists[c].st, pageHeap.h) && ValidHeap(pageHeap.h)
      ensures SpansInUse(lists[c].st, pageHeap.h) && lists[c].st.size == table[c].size
      ensures |lists[c].objs| == |lists[c].st.spans|
      ensures forall k | 0 <= k < |lists[c].objs| ::
                && lists[c].st.spans[k].start in Heads()
                && Heads()[lists[c].st.spans[k].start] == lists[c].objs[k].freelistHead
      ensures HoldsAll(table[c].size, lists[c].st, ram.words, Heads())
    {
      hide Runs, Matches, Linked, CurrentOf, FreeCount, PageHeap.Valid, IsList;
      lists[c].HeapIsValid();
    }

    lemma OtherSizes(d: nat)
      requires Wired() && d < |lists|
      ensures forall c | 0 <= c < |lists| && c != d :: table[c].size != table[d].size
    {
      forall c | 0 <= c < |lists| && c != d
        ensures table[c].size != table[d].size
      {
        DifferentSizes(c, d);
      }
    }

    /** Nothing of the other lists is where a section of list d writes. */
    lemma Separate(d: nat)
      requires Wired() && Valid() && d < |lists|
      ensures forall c, s | 0 <= c < |lists| && c != d && s in lists[c].objs ::
                s !in lists[d].objs && s !in pageHeap.FreeSpans()
      ensures forall c | 0 <= c < |lists| ::
                lists[c].st.size == lists[c].size && Placed(lists[c].st, lists[c].objs, pageHeap.h, pageHeap.spans)
    {
      hide Runs, CentralFreeList.Valid, Placed, PageHeap.FreeSpans;
      forall c | 0 <= c < |lists|
        ensures lists[c].st.size == lists[c].size && Placed(lists[c].st, lists[c].objs, pageHeap.h, pageHeap.spans)
      {
        lists[c].InPlace();
        lists[c].HeapIsValid();
      }
      forall c, s | 0 <= c < |lists| && c != d && s in lists[c].objs
        ensures s !in lists[d].objs && s !in pageHeap.FreeSpans()
      {
        DifferentSizes(c, d);
        lists[c].NothingShared(lists[d]);
      }
    }

    /** A locked allocate of list d: all lists stay valid, the others as they were. */
    method AllocateOn(d: nat, os: Option<nat>) returns (ptr: Option<nat>, ghost got: Option<nat>)
      requires Wired() && Valid() && d < |lists|
      requires os.Some? ==> FreshPages(pageHeap.h, os.value, table[d].pages)
      modifies lists[d], lists[d].objs, ram, pageHeap, pageHeap.freeLists, pageHeap.FreeSpans()
      ensures Valid() && CflOk(old(lists[d].st)) && Granted(old(pageHeap.h), pageHeap.h, old(lists[d].st), got, os)
      ensures got.Some? ==>
                && Asks(old(lists[d].st))
                && Position(old(lists[d].st).spans, got.value) == |old(lists[d].st).spans|
      ensures var (c, o) := AllocateOp(old(lists[d].st), got);
              lists[d].st == c && ptr == if o.Some? then Some(Address(o.value, table[d].size)) else None
      ensures Respects(Ready(old(lists[d].st), got), old(ram.words), ram.words)
      ensures forall c | 0 <= c < |lists| && c != d :: unchanged(lists[c]) && forall s | s in lists[c].objs :: s.Same()
    {
      hide CentralFreeList.Valid, CentralFreeList.Inv, Runs, Placed, PageHeap.Valid, Respects, Served, AllocateOp;
      hide CflOk, IsList, Disjoint, ListOk, CflShape, SpansInUse, FreshPages, PageHeap.FreeSpans, AnyFits, Untouched;
      hide HoldsAll;
      hide Chosen;
      Separate(d);
      Seen(d);
      lists[d].HeapIsValid();
      ghost var l, h, live := lists[d].st, pageHeap.h, pageHeap.spans;
      ptr, got := lists[d].Allocate(os);
      forall c, s | 0 <= c < |lists| && c != d && s in lists[c].objs
        ensures s.Same()
      {
        assert s in old(lists[c].objs) && s !in old(lists[d].objs);
      }
      forall c | 0 <= c < |lists| && c != d
        ensures Placed(lists[c].st, lists[c].objs, pageHeap.h, pageHeap.spans)
      {
        lists[c].StillPlaced(h, live);
      }
      assert Granted(h, pageHeap.h, l, got, os);
      ReadyInUse(table[d], h, pageHeap.h, l, got, os);
      lists[d].HeapIsValid();
      OtherSizes(d);
      OthersValid(Ready(l, got));
    }

    /** A locked deallocate of list d: all lists stay valid, the others as they were. */
    method FreeOn(d: nat, ptr: nat, ghost o: Object)
      requires Wired() && Valid() && d < |lists|
      requires ptr != 0 && o in Outs(lists[d].st) && ptr == Address(o, table[d].size)
      modifies lists[d], lists[d].objs, ram, pageHeap, pageHeap.freeLists, pageHeap.FreeSpans()
      ensures Valid() && InUse(old(pageHeap.h), o.start)
      ensures var c, k := old(lists[d].st), Position(old(lists[d].st).spans, o.start);
              && k < |c.spans| && Outstanding(c.spans[k], o.idx) && lists[d].st == FreeOp(c, k, o.idx)
              && Respects(WithPushed(c, k, o.idx), old(ram.words), ram.words)
              && pageHeap.h == if Releases(c, k) then GiveBack(old(pageHeap.h), o.start) else old(pageHeap.h)
      ensures forall c | 0 <= c < |lists| && c != d :: unchanged(lists[c]) && forall s | s in lists[c].objs :: s.Same()
    {
      hide CentralFreeList.Valid, CentralFreeList.Inv, Runs, Placed, PageHeap.Valid, Respects, FreeOp, Releases, CflOk;
      hide IsList, Disjoint, ListOk, CflShape, SpansInUse, PageHeap.FreeSpans, Untouched, HoldsAll, Outs, Outstanding;
      hide GiveBack, InUse;
      Separate(d);
      Seen(d);
      lists[d].HeapIsValid();
      lists[d].LocatedManaged(ptr, o);
      ghost var l, h, live, k := lists[d].st, pageHeap.h, pageHeap.spans, Position(lists[d].st.spans, o.start);
      lists[d].Deallocate(ptr, o);
      PushedInUse(l, h, k, o.idx);
      forall c, s | 0 <= c < |lists| && c != d && s in lists[c].objs
        ensures s.Same()
      {
        assert s in old(lists[c].objs) && s !in old(lists[d].objs);
      }
      forall c | 0 <= c < |lists| && c != d
        ensures Placed(lists[c].st, lists[c].objs, pageHeap.h, pageHeap.spans)
      {
        DifferentSizes(c, d);
        StaysPlaced(lists[c].st, lists[c].objs, l, h, live, k);
      }
      lists[d].HeapIsValid();
      PushedSize(l, k, o.idx);
      OtherSizes(d);
      OthersValid(WithPushed(l, k, o.idx));
    }

    /** A list's spans stay where they are when one of a list of another size is returned. */
    lemma StaysPlaced(c: Cfl, objs: seq<Span>, l: Cfl, h: Heap, live: map<nat, Span>, k: nat)
      requires Placed(c, objs, h, live) && ValidHeap(h) && SpansInUse(l, h) && k < |l.spans| && c.size != l.size
      requires Untouched(pageHeap.h, pageHeap.spans, h, live)
      requires pageHeap.h == h || pageHeap.h == GiveBack(h, l.spans[k].start)
      ensures Placed(c, objs, pageHeap.h, pageHeap.spans)
    {
      hide ValidHeap, GiveBack;
      GiveBackLaws(h, l.spans[k].start);
      forall j | 0 <= j < |c.spans|
        ensures InUse(pageHeap.h, c.spans[j].start)
      {
        assert InUse(h, c.spans[j].start) && c.spans[j].start != l.spans[k].start;
      }
    }

    // ---- the steps over memory ----

    ghost predicate HeadsKnown()
      reads *
    {
      forall c | 0 <= c < |lists| :: |lists[c].objs| == |lists[c].st.spans| && forall k | 0 <= k < |lists[c].objs| ::
        && lists[c].st.spans[k].start in Heads()
        && Heads()[lists[c].st.spans[k].start] == lists[c].objs[k].freelistHead
    }

    /** Heads of spans of the other lists stay. */
    twostate lemma HeadsStay(d: nat)
      requires Wired() && old(Valid()) && Valid() && d < |lists|
      requires forall c | 0 <= c < |lists| && c != d :: unchanged(lists[c]) && forall s | s in lists[c].objs :: s.Same()
      requires old(HeadsKnown())
      ensures OtherHeads(old(Values()), d, old(Heads()), Heads())
    {
      hide CentralFreeList.Valid, Runs, Position;
      var cfls := old(Values());
      forall c, a: nat | 0 <= c < |cfls| && c != d && Listed(cfls[c], a) && a in old(Heads())
        ensures a in Heads() && Heads()[a] == old(Heads())[a]
      {
        Seen(c);
        var k := Position(cfls[c].spans, a);
        assert cfls[c].spans[k].start == a && lists[c].objs[k].Same();
      }
    }

    /** Thread t's locked allocate, on the list of its class, is that very step of the step system. */
    method AllocateLocked(ghost w: World, ghost t: nat, d: nat, os: Option<nat>)
      returns (ptr: Option<nat>, ghost w': World)
      requires Wired() && Valid() && Shows(w) && t < |w.s.threads|
      requires w.s.threads[t].pc.TakeList? && w.s.threads[t].cls == d < |lists|
      requires os.Some? ==> FreshPages(pageHeap.h, os.value, table[d].pages)
      modifies lists[d], lists[d].objs, ram, pageHeap, pageHeap.freeLists, pageHeap.FreeSpans()
      ensures Valid() && Shows(w') && AllocateSection(table, w, t, os, w')
      ensures w'.s.threads[t].batch == if ptr.Some? then w.s.threads[t].batch + [ptr.value] else w.s.threads[t].batch
    {
      hide CentralFreeList.Valid, Runs, Placed, Respects, Granted, AllocateOp, Ready, CflOk;
      hide ListOk, FreshPages, PageHeap.FreeSpans, HoldsAll, OtherHeads, Position;
      forall c | 0 <= c < |lists| { Seen(c); }
      ghost var got;
      ptr, got := AllocateOn(d, os);
      HeadsStay(d);
      Seen(d);
      ghost var th := w.s.threads[t];
      ghost var batch := if ptr.Some? then th.batch + [ptr.value] else th.batch;
      ghost var done := ptr.None? || |batch| >= table[d].batchSize;
      ghost var s' := Update(w.s, t, th.(batch := batch, pc := if done then Pick else TakeList))
                        .(cfls := w.s.cfls[d := lists[d].st], heap := pageHeap.h);
      w' := World(s', ram.words, Heads());
      ghost var c := w.s.cfls[d];
      assert Granted(w.s.heap, s'.heap, c, got, os) && lists[d].st == AllocateOp(c, got).0;
      assert TakesFromList(table, w.s, t, got, os, s');
      assert SectionWrites(table, w, d, Ready(w.s.cfls[d], got), w');
    }

    /** Thread t's locked deallocate, on the list of its class, is that very step too. */
    method FreeLocked(ghost w: World, ghost t: nat, d: nat, ptr: nat) returns (ghost w': World)
      requires Wired() && Valid() && Shows(w) && Inv(table, w.s) && t < |w.s.threads|
      requires w.s.threads[t].pc.GiveHome? && w.s.threads[t].cls == d < |lists|
      requires w.s.threads[t].batch != [] && w.s.threads[t].batch[0] == ptr && ptr != 0
      modifies lists[d], lists[d].objs, ram, pageHeap, pageHeap.freeLists, pageHeap.FreeSpans()
      ensures Valid() && Shows(w') && FreeSection(table, w, t, w')
    {
      hide CentralFreeList.Valid, Runs, Placed, Respects, FreeOp, Releases, CflOk, Inv, GiveBack;
      hide ListOk, PageHeap.FreeSpans, HoldsAll, OtherHeads, Position, Outs, Outstanding, WithPushed;
      forall c | 0 <= c < |lists| { Seen(c); }
      ghost var th := w.s.threads[t];
      GivesBack(table, w.s, t);
      ghost var idx := PtrToIndex(ptr, th.span * PAGE_SIZE, table[d].size);
      FreeOn(d, ptr, Object(th.span, idx));
      HeadsStay(d);
      Seen(d);
      ghost var rest := th.batch[1..];
      ghost var s' := Update(w.s, t, if rest == [] then Released(th) else th.(batch := rest, pc := FindHome))
                        .(cfls := w.s.cfls[d := lists[d].st], heap := pageHeap.h);
      w' := World(s', ram.words, Heads());
      assert GiveHomeStep(w.s, t, s');
      assert SectionWrites(table, w, d, WithPushed(w.s.cfls[d], Position(w.s.cfls[d].spans, th.span), idx), w');
    }

    /** Holders of objects of class d store what they like in them: all lists stay valid. */
    method Store(ghost w: World, d: nat, words: Memory) returns (ghost w': World)
      requires Wired() && Valid() && Shows(w) && d < |lists| && CallersWrite(lists[d].st, ram.words, words)
      modifies ram
      ensures Valid() && Shows(w') && HolderWrites(w, d, w')
    {
      hide CentralFreeList.Valid, Runs, CallersWrite, CentralFreeLists.Held, ListOk, CflShape;
      Seen(d);
      OtherSizes(d);
      lists[d].HeapIsValid();
      OkShape(lists[d].st);
      forall c | 0 <= c < |lists|
        ensures CentralFreeLists.Held(lists[c].st, lists[c].objs, words, lists[c].size)
      {
        lists[c].HeldUnderCallers(lists[d].st, words);
      }
      ram.words := words;
      forall c | 0 <= c < |lists|
        ensures lists[c].Valid()
      {
        lists[c].StillHeld();
      }
      w' := World(w.s, ram.words, Heads());
    }
  }

  /** What a thread about to give a pointer home knows. */
  lemma GivesBack(table: seq<SizeClass>, s: State, t: nat)
    requires Runs(table) && Inv(table, s) && t < |s.threads|
    requires s.threads[t].pc.GiveHome? && s.threads[t].batch != []
    ensures var th := s.threads[t];
            && th.cls < |s.cfls| == |table| && s.cfls[th.cls].size == table[th.cls].size > 0
            && th.span * PAGE_SIZE <= th.batch[0]
            && var idx := PtrToIndex(th.batch[0], th.span * PAGE_SIZE, table[th.cls].size);
               && Object(th.span, idx) in Outs(s.cfls[th.cls])
               && th.batch[0] == Address(Object(th.span, idx), table[th.cls].size)
               && Position(s.cfls[th.cls].spans, th.span) < |s.cfls[th.cls].spans|
               && Outstanding(s.cfls[th.cls].spans[Position(s.cfls[th.cls].spans, th.span)], idx)
               && InUse(s.heap, th.span)
  {
    hide Outside, Capacity, CachesOk, SlabsOk, Divisible, Counted, Lends, AllLent, Lent, CflOk, SpansInUse;
    var th := s.threads[t];
    assert ThreadOk(table, s.cfls, th);
    AllIndexed(table);
    LendsPlace(table[th.cls], s.cfls[th.cls], s.heap, th.span, th.batch[0]);
    IsOut(s.cfls[th.cls], Position(s.cfls[th.cls].spans, th.span),
          PtrToIndex(th.batch[0], th.span * PAGE_SIZE, table[th.cls].size));
  }

  lemma IsOut(c: Cfl, k: nat, i: nat)
    requires k < |c.spans| && Outstanding(c.spans[k], i)
    ensures Object(c.spans[k].start, i) in Outs(c)
  {
  }
}
