/** The allocator's steps over memory: the packed lists live in the free objects, callers and threads
    write what they like into the objects they hold, and every list still holds its stack. */
module AllocatorMemory {
  import opened Sequences
  import opened Widths
  import opened PageHeapSpec
  import opened PackedLists
  import opened CflSpec
  import opened CflLaws
  import opened CflMemory
  import opened Separation
  import opened SizeClasses
  import opened SlabLayout
  import opened AllocatorSteps
  import opened AllocatorLaws
  import opened AllocatorRuns
  import opened AllocatorSafety

  /** The allocator's state, memory, and each listed span's freelist_head by its first page. */
  datatype World = World(s: State, m: Memory, heads: map<nat, uint16>)

  /** The packed list of the list's span k holds the span's stack. */
  ghost predicate HoldsAt(size: uint32, c: Cfl, k: nat, m: Memory, heads: map<nat, uint16>)
    requires k < |c.spans|
  {
    c.spans[k].start in heads && IsList(m, Base(c.spans[k]), size, heads[c.spans[k].start], c.spans[k].free)
  }

  ghost predicate HoldsAll(size: uint32, c: Cfl, m: Memory, heads: map<nat, uint16>) {
    forall k: nat | k < |c.spans| :: HoldsAt(size, c, k, m, heads)
  }

  ghost predicate ListsHold(table: seq<SizeClass>, w: World) {
    forall c: nat | c < |table| && c < |w.s.cfls| :: HoldsAll(table[c].size, w.s.cfls[c], w.m, w.heads)
  }

  // ---- steps ----

  /** Heads of spans on other lists stay. */
  ghost predicate OtherHeads(cfls: seq<Cfl>, d: nat, heads: map<nat, uint16>, heads': map<nat, uint16>) {
    forall c, a: nat | 0 <= c < |cfls| && c != d && Listed(cfls[c], a) && a in heads ::
      a in heads' && heads'[a] == heads[a]
  }

  /** What one locked section of list d does to memory when it finds its packed lists intact: they hold
      the new stacks, and it changes no object that is out of `during`, its value while it writes, and
      nothing of others. The calls of the list's class do so (module AllocatorLists); a section that
      finds a broken list may do anything. */
  ghost predicate SectionWrites(table: seq<SizeClass>, w: World, d: nat, during: Cfl, w': World) {
    && d < |table| && d < |w.s.cfls| && d < |w'.s.cfls|
    && (HoldsAll(table[d].size, w.s.cfls[d], w.m, w.heads) ==>
          && HoldsAll(table[d].size, w'.s.cfls[d], w'.m, w'.heads)
          && Respects(during, w.m, w'.m) && OtherHeads(w.s.cfls, d, w.heads, w'.heads))
  }

  ghost predicate AllocateSection(table: seq<SizeClass>, w: World, t: nat, os: Option<nat>, w': World)
    requires t < |w.s.threads|
  {
    && w.s.threads[t].pc.TakeList?
    && exists got :: TakesFromList(table, w.s, t, got, os, w'.s)
                     && (got.Some? ==> w.s.cfls[w.s.threads[t].cls].size > 0)
                     && SectionWrites(table, w, w.s.threads[t].cls, Ready(w.s.cfls[w.s.threads[t].cls], got), w')
  }

  /** The list with the object pushed, before the span is released. */
  ghost function WithPushed(c: Cfl, k: nat, idx: nat): Cfl
    requires k < |c.spans|
  {
    c.(spans := c.spans[k := CflSpec.Pushed(c.spans[k], idx)])
  }

  ghost predicate FreeSection(table: seq<SizeClass>, w: World, t: nat, w': World)
    requires t < |w.s.threads|
  {
    var th := w.s.threads[t];
    && GiveHomeStep(w.s, t, w'.s)
    && var c := w.s.cfls[th.cls];
       var k := Position(c.spans, th.span);
       (w'.s.fault && w'.m == w.m && w'.heads == w.heads)
       || (k < |c.spans| && c.size > 0 && th.span * PAGE_SIZE <= th.batch[0]
           && SectionWrites(table, w, th.cls, WithPushed(c, k, PtrToIndex(th.batch[0], th.span * PAGE_SIZE, c.size)),
                            w'))
  }

  /** Whoever holds objects of class d writes what it likes into them. */
  ghost predicate HolderWrites(w: World, d: nat, w': World) {
    d < |w.s.cfls| && w'.s == w.s && w'.heads == w.heads && CallersWrite(w.s.cfls[d], w.m, w'.m)
  }

  ghost predicate WorldStep(table: seq<SizeClass>, w: World, t: nat, cpu: nat, arg: nat, os: Option<nat>, w': World)
    requires |table| >= 2 && Divisible(table)
  {
    || HolderWrites(w, arg, w')
    || (t < |w.s.threads| && (
         || (OtherStep(table, w.s, t, cpu, arg, w'.s) && w'.m == w.m && w'.heads == w.heads)
         || AllocateSection(table, w, t, os, w')
         || FreeSection(table, w, t, w')))
  }

  // ---- one step ----

  ghost predicate Safe(table: seq<SizeClass>, w: World)
    requires Runs(table)
  {
    Inv(table, w.s) && ListsHold(table, w)
  }

  lemma ListShape(table: seq<SizeClass>, s: State, c: nat)
    requires Runs(table) && Inv(table, s) && c < |s.cfls|
    ensures c < |table| && ListOk(table[c], s.cfls[c], s.heap) && CflOk(s.cfls[c]) && s.cfls[c].size == table[c].size
    ensures Disjoint(s.heap) && (s.cfls[c].spans != [] ==> table[c].size >= NODE_SIZE)
  {
    hide Outside, Capacity, CachesOk, SlabsOk, ThreadsOk, Divisible, Counted;
    NoSpans(table[0], s.cfls[0], s.heap);
  }

  lemma NoSpans(sc: SizeClass, c: Cfl, h: Heap)
    requires ListOk(sc, c, h)
    ensures c.spans != [] ==> sc.size > 0
  {
  }

  /** Classes differ in size. */
  lemma SizesDiffer(table: seq<SizeClass>, c: nat, d: nat)
    requires WellOrdered(table) && c < |table| && d < |table| && c != d
    ensures table[c].size != table[d].size
  {
  }

  lemma HolderHarmless(table: seq<SizeClass>, w: World, d: nat, w': World)
    requires Runs(table) && Safe(table, w) && HolderWrites(w, d, w')
    ensures Safe(table, w')
  {
    hide Inv, Divisible, WellOrdered, CallersWrite, ListOk, CflOk, IsList, Disjoint;
    ListShape(table, w.s, d);
    forall c: nat | c < |table| && c < |w'.s.cfls|
      ensures HoldsAll(table[c].size, w'.s.cfls[c], w'.m, w'.heads)
    {
      ListShape(table, w.s, c);
      if c != d { SizesDiffer(table, c, d); }
      assert HoldsAll(table[c].size, w.s.cfls[c], w.m, w.heads);
      forall k: nat | k < |w.s.cfls[c].spans|
        ensures HoldsAt(table[c].size, w.s.cfls[c], k, w'.m, w.heads)
      {
        assert HoldsAt(table[c].size, w.s.cfls[c], k, w.m, w.heads);
        Harmless(table[c], table[d], w.s.cfls[c], w.s.cfls[d], w.s.heap, w.m, w'.m, k,
                 w.heads[w.s.cfls[c].spans[k].start]);
      }
    }
  }

  lemma Harmless(sc: SizeClass, sd: SizeClass, c: Cfl, d: Cfl, h: Heap, m: Memory, m': Memory, k: nat, head: uint16)
    requires ListOk(sc, c, h) && ListOk(sd, d, h) && Disjoint(h) && (d == c || sd.size != sc.size)
    requires k < |c.spans| && sc.size >= NODE_SIZE && CallersWrite(d, m, m')
    requires IsList(m, Base(c.spans[k]), sc.size, head, c.spans[k].free)
    ensures IsList(m', Base(c.spans[k]), sc.size, head, c.spans[k].free)
  {
    CallersHarmless(c, d, h, m, m', k, sc.size, head);
  }

  /** A section of list d leaves the packed lists of the other classes alone. */
  lemma SectionHarmless(table: seq<SizeClass>, w: World, d: nat, during: Cfl, h: Heap, w': World)
    requires Runs(table) && Safe(table, w) && SectionWrites(table, w, d, during, w')
    requires |w.s.cfls| == |w'.s.cfls| == |table| && w'.s.cfls == w.s.cfls[d := w'.s.cfls[d]]
    requires Disjoint(h) && CflShape(during) && SpansInUse(during, h) && during.size == table[d].size
    requires forall c | 0 <= c < |table| && c != d :: SpansInUse(w.s.cfls[c], h)
    ensures ListsHold(table, w')
  {
    hide Inv, Divisible, WellOrdered, Respects, CflOk, IsList, Disjoint, SpansInUse, CflShape, Listed;
    assert HoldsAll(table[d].size, w.s.cfls[d], w.m, w.heads);
    forall c: nat | c < |table| && c < |w'.s.cfls| && c != d
      ensures HoldsAll(table[c].size, w'.s.cfls[c], w'.m, w'.heads)
    {
      var l := w.s.cfls[c];
      ListShape(table, w.s, c);
      OkShape(l);
      SizesDiffer(table, c, d);
      assert HoldsAll(table[c].size, l, w.m, w.heads);
      forall k: nat | k < |l.spans|
        ensures HoldsAt(table[c].size, l, k, w'.m, w'.heads)
      {
        assert HoldsAt(table[c].size, l, k, w.m, w.heads);
        ListedAt(l, k);
        OtherSizesKept(l, during, h, w.m, w'.m, k, table[c].size, w.heads[l.spans[k].start]);
      }
    }
  }

  lemma OkShape(c: Cfl)
    requires CflOk(c)
    ensures CflShape(c)
  {
  }

  lemma ListedAt(c: Cfl, k: nat)
    requires k < |c.spans|
    ensures Listed(c, c.spans[k].start)
  {
  }

  // ---- the locked sections ----

  lemma ReadyInUse(sc: SizeClass, h: Heap, h': Heap, c: Cfl, got: Option<nat>, os: Option<nat>)
    requires ValidHeap(h) && ListOk(sc, c, h) && Granted(h, h', c, got, os)
    ensures (got.Some? ==> c.size > 0)
    ensures var during := Ready(c, got);
            CflShape(during) && SpansInUse(during, h') && during.size == sc.size && Outs(during) == Outs(c)
  {
    hide ValidHeap, Served;
    AllocatedList(sc, h, h', c, got, os);
    ReadyOk(c, got);
    OkShape(Ready(c, got));
    forall a: nat { AllocateListed(c, got, a); }
    hide AllocateOp, Ready, CflOk, CflShape, Outs;
    AllocateListed(c, got, 0);
    ListsInUse(AllocateOp(c, got).0, h');
    ListsInUse(Ready(c, got), h');
  }

  lemma OthersInUse(table: seq<SizeClass>, s: State, d: nat, cfls: seq<Cfl>)
    requires Runs(table) && Inv(table, s) && |cfls| == |s.cfls|
    requires forall c | 0 <= c < |cfls| && c != d :: cfls[c] == s.cfls[c]
    ensures Disjoint(s.heap) && ValidHeap(s.heap)
    ensures forall c | 0 <= c < |cfls| && c != d :: SpansInUse(cfls[c], s.heap)
  {
    hide CachesOk, SlabsOk, ThreadsOk, Divisible, Counted, CflOk, SpansInUse;
  }

  lemma AllocateSafe(table: seq<SizeClass>, w: World, t: nat, os: Option<nat>, w': World)
    requires Runs(table) && Safe(table, w) && t < |w.s.threads| && AllocateSection(table, w, t, os, w')
    ensures Safe(table, w')
  {
    hide Inv, Divisible, WellOrdered, ListsHold, SectionWrites, CflOk, SpansInUse, CflShape, Granted, AllocateOp,
         ValidHeap, Disjoint;
    var d := w.s.threads[t].cls;
    var got :| TakesFromList(table, w.s, t, got, os, w'.s)
               && (got.Some? ==> w.s.cfls[d].size > 0)
               && SectionWrites(table, w, d, Ready(w.s.cfls[d], got), w');
    TakeListKeeps(table, w.s, t, os, w'.s);
    OthersInUse(table, w.s, d, w.s.cfls);
    OthersInUse(table, w'.s, d, w.s.cfls);
    SameLength(table, w.s);
    ListShape(table, w.s, d);
    ReadyInUse(table[d], w.s.heap, w'.s.heap, w.s.cfls[d], got, os);
    SectionHarmless(table, w, d, Ready(w.s.cfls[d], got), w'.s.heap, w');
  }

  lemma PushedSpan(sp: SpanState, idx: nat)
    requires SpanOk(sp) && Outstanding(sp, idx)
    ensures var sp' := CflSpec.Pushed(sp, idx);
            && SpanShape(sp') && sp'.start == sp.start && sp'.total == sp.total
            && forall i: nat :: Outstanding(sp', i) <==> Outstanding(sp, i) && i != idx
  {
    var sp' := CflSpec.Pushed(sp, idx);
    assert sp'.free[1..] == sp.free;
    assert forall i | i in sp'.free :: i == idx || i in sp.free;
    assert forall i | i in sp.free :: i in sp'.free[1..];
  }

  /** The list with an object pushed is the list but for one free object more. */
  lemma PushedInUse(c: Cfl, h: Heap, k: nat, idx: nat)
    requires CflOk(c) && SpansInUse(c, h) && k < |c.spans| && Outstanding(c.spans[k], idx)
    ensures CflShape(WithPushed(c, k, idx)) && SpansInUse(WithPushed(c, k, idx), h)
    ensures Outs(WithPushed(c, k, idx)) == Outs(c) - iset{Object(c.spans[k].start, idx)}
  {
    var sp := CflSpec.Pushed(c.spans[k], idx);
    PushedSpan(c.spans[k], idx);
    OutsReplace(c, k, sp, c.current);
    forall i: nat { OutsOf(c, k, i); }
    if c.current.Some? { PositionReplace(c.spans, k, sp, c.current.value); }
    hide SpanOk, SpanShape, ObjectsPerSpan, CflSpec.Pushed, Outstanding;
  }

  lemma FreeSafe(table: seq<SizeClass>, w: World, t: nat, w': World)
    requires Runs(table) && Safe(table, w) && t < |w.s.threads| && FreeSection(table, w, t, w')
    ensures Safe(table, w')
  {
    hide Inv, Divisible, WellOrdered, ListsHold, SectionWrites, CflOk, SpansInUse, CflShape, FreeOp, GiveBack,
         ValidHeap, Disjoint, Outstanding, WithPushed;
    var d := w.s.threads[t].cls;
    GiveHomeKeeps(table, w.s, t, w'.s);
    NoFault(table, w'.s);
    OthersInUse(table, w.s, d, w.s.cfls);
    SameLength(table, w.s);
    ListShape(table, w.s, d);
    var c, a := w.s.cfls[d], w.s.threads[t].span;
    var k, idx := Position(c.spans, a), PtrToIndex(w.s.threads[t].batch[0], a * PAGE_SIZE, c.size);
    PushedInUse(c, w.s.heap, k, idx);
    PushedSize(c, k, idx);
    SectionHarmless(table, w, d, WithPushed(c, k, idx), w.s.heap, w');
  }

  lemma PushedSize(c: Cfl, k: nat, idx: nat)
    requires k < |c.spans|
    ensures WithPushed(c, k, idx).size == c.size
  {
  }

  lemma NoFault(table: seq<SizeClass>, s: State)
    requires Runs(table) && Inv(table, s)
    ensures !s.fault
  {
  }

  // ---- every run ----

  lemma WorldStepSafe(table: seq<SizeClass>, w: World, t: nat, cpu: nat, arg: nat, os: Option<nat>, w': World)
    requires Runs(table) && Safe(table, w) && WorldStep(table, w, t, cpu, arg, os, w')
    ensures Safe(table, w')
  {
    hide Inv, Divisible, HoldsAll, AllocateSection, FreeSection, OtherStep, HolderWrites;
    if HolderWrites(w, arg, w') {
      HolderHarmless(table, w, arg, w');
    } else if AllocateSection(table, w, t, os, w') {
      AllocateSafe(table, w, t, os, w');
    } else if FreeSection(table, w, t, w') {
      FreeSafe(table, w, t, w');
    } else {
      OtherKeeps(table, w.s, t, cpu, arg, w'.s);
      OtherSame(table, w.s, t, cpu, arg, w'.s);
    }
  }

  ghost predicate WorldNext(table: seq<SizeClass>, w: World, w': World)
    requires |table| >= 2 && Divisible(table)
  {
    exists t, cpu, arg, os :: WorldStep(table, w, t, cpu, arg, os, w')
  }

  ghost predicate WorldRun(table: seq<SizeClass>, worlds: seq<World>)
    requires Runs(table)
  {
    && worlds != [] && Init(table, worlds[0].s)
    && forall i | 0 <= i < |worlds| - 1 :: WorldNext(table, worlds[i], worlds[i + 1])
  }

  /** In every interleaving of calls and of callers writing into the objects they hold, from any
      memory, every packed list holds its span's stack of free objects. */
  lemma {:induction false} ListsIntact(table: seq<SizeClass>, worlds: seq<World>)
    requires Runs(table) && WorldRun(table, worlds)
    ensures Inv(table, worlds[|worlds| - 1].s) && ListsHold(table, worlds[|worlds| - 1])
    decreases |worlds|
  {
    hide Init, Inv, WorldStep, Divisible, ListsHold;
    var n := |worlds| - 1;
    if n == 0 {
      InitInv(table, worlds[0].s);
      InitHolds(table, worlds[0]);
    } else {
      ListsIntact(table, worlds[..n]);
      var w, w' := worlds[n - 1], worlds[n];
      assert WorldNext(table, w, w');
      var t, cpu, arg, os :| WorldStep(table, w, t, cpu, arg, os, w');
      WorldStepSafe(table, w, t, cpu, arg, os, w');
    }
  }

  lemma InitHolds(table: seq<SizeClass>, w: World)
    requires Init(table, w.s)
    ensures ListsHold(table, w)
  {
  }

  // ---- what callers stored ----

  /** A section of list d leaves the contents of the objects out of `during`, and of the objects of
      every other list, alone. */
  lemma SectionKeeps(table: seq<SizeClass>, w: World, d: nat, during: Cfl, h: Heap, w': World, c: nat, o: Object)
    requires Runs(table) && Safe(table, w) && SectionWrites(table, w, d, during, w') && c < |w.s.cfls| == |table|
    requires Disjoint(h) && CflShape(during) && SpansInUse(during, h) && during.size == table[d].size
    requires c != d ==> SpansInUse(w.s.cfls[c], h)
    requires o in Outs(if c == d then during else w.s.cfls[c])
    ensures SameObject(w.m, w'.m, o.start * PAGE_SIZE, table[c].size, o.idx)
  {
    hide Inv, Divisible, WellOrdered, CflOk, IsList, Disjoint, SpansInUse, CflShape, Listed, SameObject;
    assert HoldsAll(table[d].size, w.s.cfls[d], w.m, w.heads);
    if c != d {
      var l := w.s.cfls[c];
      ListShape(table, w.s, c);
      OkShape(l);
      SizesDiffer(table, c, d);
      var k :| 0 <= k < |l.spans| && l.spans[k].start == o.start && Outstanding(l.spans[k], o.idx);
      ShapeAt(l, k);
      assert HoldsAll(table[c].size, l, w.m, w.heads);
      assert HoldsAt(table[c].size, l, k, w.m, w.heads);
      OtherSizesKept(l, during, h, w.m, w'.m, k, table[c].size, w.heads[l.spans[k].start]);
    }
  }

  lemma ShapeAt(c: Cfl, k: nat)
    requires CflShape(c) && k < |c.spans|
    ensures c.spans[k].carved <= c.spans[k].total
  {
  }

  /** No step of the allocator changes the contents of an object that is out before it and after it:
      what a caller stored is changed by whoever holds objects of that class only. */
  lemma ContentsKept(table: seq<SizeClass>, w: World, t: nat, cpu: nat, arg: nat, os: Option<nat>, w': World,
                     c: nat, o: Object)
    requires Runs(table) && Safe(table, w) && WorldStep(table, w, t, cpu, arg, os, w') && !HolderWrites(w, arg, w')
    requires c < |w.s.cfls| && c < |w'.s.cfls| && o in Outs(w.s.cfls[c]) && o in Outs(w'.s.cfls[c])
    ensures c < |table| && SameObject(w.m, w'.m, o.start * PAGE_SIZE, table[c].size, o.idx)
  {
    hide Inv, Divisible, HoldsAll, AllocateSection, FreeSection, OtherStep, HolderWrites, Outs, ListsHold;
    SameLength(table, w.s);
    if AllocateSection(table, w, t, os, w') {
      AllocateContents(table, w, t, os, w', c, o);
    } else if FreeSection(table, w, t, w') {
      FreeContents(table, w, t, w', c, o);
    }
  }

  lemma AllocateContents(table: seq<SizeClass>, w: World, t: nat, os: Option<nat>, w': World, c: nat, o: Object)
    requires Runs(table) && Safe(table, w) && t < |w.s.threads| && AllocateSection(table, w, t, os, w')
    requires c < |w.s.cfls| == |table| && o in Outs(w.s.cfls[c])
    ensures SameObject(w.m, w'.m, o.start * PAGE_SIZE, table[c].size, o.idx)
  {
    hide Inv, Divisible, WellOrdered, ListsHold, SectionWrites, CflOk, SpansInUse, CflShape, Granted, AllocateOp,
         ValidHeap, Disjoint, Outs;
    var d := w.s.threads[t].cls;
    var got :| TakesFromList(table, w.s, t, got, os, w'.s)
               && (got.Some? ==> w.s.cfls[d].size > 0)
               && SectionWrites(table, w, d, Ready(w.s.cfls[d], got), w');
    TakeListKeeps(table, w.s, t, os, w'.s);
    OthersInUse(table, w.s, d, w.s.cfls);
    OthersInUse(table, w'.s, d, w.s.cfls);
    ListShape(table, w.s, d);
    ReadyInUse(table[d], w.s.heap, w'.s.heap, w.s.cfls[d], got, os);
    SectionKeeps(table, w, d, Ready(w.s.cfls[d], got), w'.s.heap, w', c, o);
  }

  lemma FreeContents(table: seq<SizeClass>, w: World, t: nat, w': World, c: nat, o: Object)
    requires Runs(table) && Safe(table, w) && t < |w.s.threads| && FreeSection(table, w, t, w')
    requires c < |w.s.cfls| == |table| && c < |w'.s.cfls| && o in Outs(w.s.cfls[c]) && o in Outs(w'.s.cfls[c])
    ensures SameObject(w.m, w'.m, o.start * PAGE_SIZE, table[c].size, o.idx)
  {
    hide Inv, Divisible, WellOrdered, ListsHold, SectionWrites, CflOk, SpansInUse, CflShape, FreeOp, GiveBack,
         ValidHeap, Disjoint, Outstanding, WithPushed, Outs;
    var d := w.s.threads[t].cls;
    GiveHomeKeeps(table, w.s, t, w'.s);
    NoFault(table, w'.s);
    OthersInUse(table, w.s, d, w.s.cfls);
    ListShape(table, w.s, d);
    var l, a := w.s.cfls[d], w.s.threads[t].span;
    var k, idx := Position(l.spans, a), PtrToIndex(w.s.threads[t].batch[0], a * PAGE_SIZE, l.size);
    PushedInUse(l, w.s.heap, k, idx);
    PushedSize(l, k, idx);
    FreeOk(l, k, idx);
    SectionKeeps(table, w, d, WithPushed(l, k, idx), w.s.heap, w', c, o);
  }
}
