/** What holds in every run of the allocator (allocator.hpp). */
module AllocatorSafety {
  import opened Sequences
  import opened Arithmetic
  import opened Counting
  import opened Widths
  import opened PageHeapSpec
  import opened PageHeapLaws
  import opened PackedLists
  import opened CflSpec
  import opened CflLaws
  import opened CflMemory
  import opened SizeClasses
  import opened SlabLayout
  import opened AllocatorSteps
  import opened AllocatorLaws
  import opened AllocatorRuns

  // ---- every run ----

  lemma InitInv(table: seq<SizeClass>, s: State)
    requires Runs(table) && Init(table, s)
    ensures Inv(table, s)
  {
    hide Capacity, Sum;
    forall p: nat
      ensures Outside(s, p) == 0 && !LentAny(s.cfls, p)
    {
      SumZero(InStacks(s.caches, p));
      forall cpu | 0 <= cpu < |s.slabs|
        ensures Sum(InStacks(s.slabs[cpu], p)) == 0
      {
        SumZero(InStacks(s.slabs[cpu], p));
      }
      SumZero(InSlabs(s.slabs, p));
      SumZero(InThreads(s.threads, p));
    }
  }

  /** Every step of every thread keeps the invariant. Whatever is outside its list after the step
      is lent from the same span as before. */
  lemma StepKeeps(table: seq<SizeClass>, s: State, t: nat, cpu: nat, arg: nat, os: Option<nat>, s': State)
    requires Runs(table) && Inv(table, s) && ThreadStep(table, s, t, cpu, arg, os, s')
    ensures Inv(table, s') && Kept(s.cfls, s')
  {
    hide Inv, Kept, StartAlloc, StartFree, PopStep, TakeCacheStep, TakeListStep, PickStep, PublishStep, DeliverStep,
         FindSpanStep, ReadSizeStep, PushStep, DrainStep, FillCacheStep, FindHomeStep, GiveHomeStep, Divisible;
    if TakeListStep(table, s, t, os, s') {
      TakeListKeeps(table, s, t, os, s');
    } else if GiveHomeStep(s, t, s') {
      GiveHomeKeeps(table, s, t, s');
    } else {
      OtherKeeps(table, s, t, cpu, arg, s');
      OtherSame(table, s, t, cpu, arg, s');
      SameKept(s, s');
    }
  }

  /** A step that touches neither a central free list nor the page heap. */
  ghost predicate OtherStep(table: seq<SizeClass>, s: State, t: nat, cpu: nat, arg: nat, s': State)
    requires |table| >= 2 && Divisible(table)
  {
    t < |s.threads| && (
      || StartAlloc(table, s, t, arg, s')
      || StartFree(s, t, arg, s')
      || PopStep(s, t, cpu, s')
      || TakeCacheStep(table, s, t, s')
      || PickStep(s, t, s')
      || PublishStep(table, s, t, cpu, s')
      || DeliverStep(s, t, s')
      || FindSpanStep(s, t, s')
      || ReadSizeStep(table, s, t, s')
      || PushStep(table, s, t, cpu, s')
      || DrainStep(table, s, t, cpu, s')
      || FillCacheStep(s, t, s')
      || FindHomeStep(s, t, s'))
  }

  /** Only thread t, slabs, caches and callers may change. */
  ghost predicate OnlyThread(s: State, t: nat, s': State) {
    && s'.heap == s.heap && s'.cfls == s.cfls && |s'.threads| == |s.threads|
    && forall u | 0 <= u < |s.threads| && u != t :: s'.threads[u] == s.threads[u]
  }

  lemma AllocateSide(table: seq<SizeClass>, s: State, t: nat, cpu: nat, arg: nat, s': State)
    requires |table| >= 2 && Divisible(table) && t < |s.threads|
    requires || StartAlloc(table, s, t, arg, s') || PopStep(s, t, cpu, s') || TakeCacheStep(table, s, t, s')
             || PickStep(s, t, s') || PublishStep(table, s, t, cpu, s') || DeliverStep(s, t, s')
    ensures OnlyThread(s, t, s')
  {
    hide LeastClass, Capacity, Divisible;
  }

  lemma FreeSide(table: seq<SizeClass>, s: State, t: nat, cpu: nat, arg: nat, s': State)
    requires |table| >= 2 && Divisible(table) && t < |s.threads|
    requires || StartFree(s, t, arg, s') || FindSpanStep(s, t, s') || ReadSizeStep(table, s, t, s')
             || PushStep(table, s, t, cpu, s') || DrainStep(table, s, t, cpu, s') || FillCacheStep(s, t, s')
             || FindHomeStep(s, t, s')
    ensures OnlyThread(s, t, s')
  {
    hide SizeIndex, InSpan, Managed, Capacity, Divisible;
  }

  lemma OtherSame(table: seq<SizeClass>, s: State, t: nat, cpu: nat, arg: nat, s': State)
    requires |table| >= 2 && Divisible(table) && OtherStep(table, s, t, cpu, arg, s')
    ensures OnlyThread(s, t, s')
  {
    hide Divisible, StartAlloc, StartFree, PopStep, TakeCacheStep, PickStep, PublishStep, DeliverStep, FindSpanStep,
         ReadSizeStep, PushStep, DrainStep, FillCacheStep, FindHomeStep, OnlyThread;
    if || StartFree(s, t, arg, s') || FindSpanStep(s, t, s') || ReadSizeStep(table, s, t, s')
       || PushStep(table, s, t, cpu, s') || DrainStep(table, s, t, cpu, s') || FillCacheStep(s, t, s')
       || FindHomeStep(s, t, s') {
      FreeSide(table, s, t, cpu, arg, s');
    } else {
      AllocateSide(table, s, t, cpu, arg, s');
    }
  }

  lemma SameKept(s: State, s': State)
    requires s'.cfls == s.cfls
    ensures Kept(s.cfls, s')
  {
  }

  lemma OtherKeeps(table: seq<SizeClass>, s: State, t: nat, cpu: nat, arg: nat, s': State)
    requires Runs(table) && Inv(table, s) && OtherStep(table, s, t, cpu, arg, s')
    ensures Inv(table, s')
  {
    hide Inv, StartAlloc, StartFree, PopStep, TakeCacheStep, PickStep, PublishStep, DeliverStep,
         FindSpanStep, ReadSizeStep, PushStep, DrainStep, FillCacheStep, FindHomeStep, Divisible;
    if StartAlloc(table, s, t, arg, s') { StartAllocKeeps(table, s, t, arg, s'); }
    if StartFree(s, t, arg, s') { StartFreeKeeps(table, s, t, arg, s'); }
    if PopStep(s, t, cpu, s') { PopKeeps(table, s, t, cpu, s'); }
    if TakeCacheStep(table, s, t, s') { TakeCacheKeeps(table, s, t, s'); }
    if PickStep(s, t, s') { PickKeeps(table, s, t, s'); }
    if PublishStep(table, s, t, cpu, s') { PublishKeeps(table, s, t, cpu, s'); }
    if DeliverStep(s, t, s') { DeliverKeeps(table, s, t, s'); }
    if FindSpanStep(s, t, s') { FindSpanKeeps(table, s, t, s'); }
    if ReadSizeStep(table, s, t, s') { ReadSizeKeeps(table, s, t, s'); }
    if PushStep(table, s, t, cpu, s') { PushKeeps(table, s, t, cpu, s'); }
    if DrainStep(table, s, t, cpu, s') { DrainKeeps(table, s, t, cpu, s'); }
    if FillCacheStep(s, t, s') { FillCacheKeeps(table, s, t, s'); }
    if FindHomeStep(s, t, s') { FindHomeKeeps(table, s, t, s'); }
  }

  ghost predicate Run(table: seq<SizeClass>, states: seq<State>)
    requires Runs(table)
  {
    && states != [] && Init(table, states[0])
    && forall i | 0 <= i < |states| - 1 :: Next(table, states[i], states[i + 1])
  }

  /** In every interleaving of allocations and deallocations by any number of threads and CPUs, the
      invariant holds and no lookup or locked section meets a span or an object it must not. */
  lemma {:induction false} RunSafe(table: seq<SizeClass>, states: seq<State>)
    requires Runs(table) && Run(table, states)
    ensures Inv(table, states[|states| - 1]) && !states[|states| - 1].fault
    decreases |states|
  {
    hide Init, ThreadStep, Divisible;
    var n := |states| - 1;
    if n == 0 {
      InitInv(table, states[0]);
    } else {
      RunSafe(table, states[..n]);
      var s, s' := states[n - 1], states[n];
      assert Next(table, s, s');
      var t, cpu, arg, os :| ThreadStep(table, s, t, cpu, arg, os, s');
      StepKeeps(table, s, t, cpu, arg, os, s');
    }
  }

  // ---- every object is in one place ----

  /** How often object i of the span at a occurs: among the uncarved ones, on the span's free list,
      in a transfer cache, in a CPU's slab, with a thread, with a caller. */
  ghost function Places(s: State, c: nat, a: nat, i: nat): nat
    requires c < |s.cfls| && Listed(s.cfls[c], a)
  {
    var sp := s.cfls[c].spans[Position(s.cfls[c].spans, a)];
    (if sp.carved <= i then 1 else 0) + Count(sp.free, i) + Outside(s, Address(Object(a, i), s.cfls[c].size))
  }

  /** An object of a listed span is outside exactly when its list lent it. */
  lemma OutsideIffOut(table: seq<SizeClass>, s: State, c: nat, a: nat, i: nat)
    requires Runs(table) && Inv(table, s) && c < |s.cfls| && Listed(s.cfls[c], a)
    requires i < s.cfls[c].spans[Position(s.cfls[c].spans, a)].total
    ensures var p := Address(Object(a, i), s.cfls[c].size);
            Outside(s, p) == if Out(s.cfls[c], Object(a, i)) then 1 else 0
  {
    hide Outside, Capacity, CachesOk, SlabsOk, ThreadsOk, Divisible, SlabOk;
    var l, p := s.cfls[c], Address(Object(a, i), s.cfls[c].size);
    AllIndexed(table);
    ListsInUse(l, s.heap);
    if Out(l, Object(a, i)) {
      assert Lends(l, a, p) && Lent(l, p);
    } else if e: nat, b: nat :| e < |s.cfls| && Lends(s.cfls[e], b, p) {
      LendsPlace(table[e], s.cfls[e], s.heap, b, p);
      ObjectOnPages(a, l.pages, l.size, i, p);
      assert InSpan(s.heap, a, p / PAGE_SIZE);
      NotLent(l, a, i);
    }
  }

  lemma NotLent(l: Cfl, a: nat, i: nat)
    requires l.size > 0 && !Out(l, Object(a, i))
    ensures !Lends(l, a, Address(Object(a, i), l.size))
  {
    if j: nat :| Out(l, Object(a, j)) && Address(Object(a, j), l.size) == Address(Object(a, i), l.size) {
      IndicesApart(i, j, a * PAGE_SIZE, l.size);
    }
  }

  /** At every moment of every run each object of each in-use span is in exactly one place. */
  lemma OnePlace(table: seq<SizeClass>, s: State, a: nat)
    requires Runs(table) && Inv(table, s) && InUse(s.heap, a)
    ensures exists c: nat :: c < |s.cfls| && Listed(s.cfls[c], a)
    ensures forall c: nat, i: nat | c < |s.cfls| && Listed(s.cfls[c], a)
            && i < ObjectsPerSpan(s.cfls[c].size, s.cfls[c].pages) ::
              Places(s, c, a, i) == 1
  {
    hide Outside, Capacity, CachesOk, SlabsOk, ThreadsOk, Divisible, WellOrdered, Counted, Address, Count;
    assert HasHome(s.cfls, a);
    forall c: nat, i: nat | c < |s.cfls| && Listed(s.cfls[c], a) && i < ObjectsPerSpan(s.cfls[c].size, s.cfls[c].pages)
      ensures Places(s, c, a, i) == 1
    {
      assert ListOk(table[c], s.cfls[c], s.heap);
      var k := Position(s.cfls[c].spans, a);
      OutsideIffOut(table, s, c, a, i);
      OutsOf(s.cfls[c], k, i);
      CountDistinct(s.cfls[c].spans[k].free, i);
    }
  }

  // ---- spans stay while an object is outside ----

  /** A lent pointer's span is in use, at its class's length and size, and holds the whole block. */
  lemma LendsInUse(table: seq<SizeClass>, s: State, c: nat, a: nat, p: nat)
    requires Runs(table) && Inv(table, s) && c < |s.cfls| && Lends(s.cfls[c], a, p)
    ensures c < |table| && a in s.heap && s.heap[a] == SpanInfo(table[c].pages, table[c].size, false)
    ensures InSpan(s.heap, a, p / PAGE_SIZE)
    ensures a * PAGE_SIZE <= p && p + table[c].size <= (a + table[c].pages) * PAGE_SIZE
  {
    hide Outside, Capacity, CachesOk, SlabsOk, ThreadsOk, Divisible, Counted, Lends;
    AllIndexed(table);
    LendsPlace(table[c], s.cfls[c], s.heap, a, p);
  }

  /** While an object of a span stays outside its list, no step of any thread or class returns,
      merges, splits or deletes the span: it keeps its start, length and size. */
  lemma SpanStays(table: seq<SizeClass>, s: State, t: nat, cpu: nat, arg: nat, os: Option<nat>, s': State, c: nat,
                  a: nat, p: nat)
    requires Runs(table) && Inv(table, s) && ThreadStep(table, s, t, cpu, arg, os, s')
    requires c < |s.cfls| && Lends(s.cfls[c], a, p) && Outside(s', p) > 0
    ensures InUse(s.heap, a) && a in s'.heap && s'.heap[a] == s.heap[a]
  {
    hide Inv, ThreadStep, Outside, Lends, Divisible, WellOrdered;
    StepKeeps(table, s, t, cpu, arg, os, s');
    LendsInUse(table, s, c, a, p);
    LendsInUse(table, s', c, a, p);
  }

  /** The pointer a thread looked up before it takes a lock or reads the span's size. */
  ghost function LookedUp(th: Thread): nat
    requires (th.pc.GiveHome? && th.batch != []) || (th.pc.ReadSize? && th.hand.Some?)
  {
    if th.pc.GiveHome? then th.batch[0] else th.hand.value
  }

  /** What a lookup outside the locks found is still right when the thread comes to use it, whatever
      step another thread took meanwhile: the span is in use, the same, and holds the pointer. */
  lemma LookupStable(table: seq<SizeClass>, s: State, t: nat, cpu: nat, arg: nat, os: Option<nat>, s': State, u: nat)
    requires Runs(table) && Inv(table, s) && ThreadStep(table, s, t, cpu, arg, os, s')
    requires u < |s.threads| && u < |s'.threads| && s'.threads[u] == s.threads[u]
    requires s.threads[u].pc.GiveHome? || s.threads[u].pc.ReadSize?
    ensures var th := s.threads[u];
            && (if th.pc.GiveHome? then th.batch != [] else th.hand.Some?)
            && InUse(s.heap, th.span) && InSpan(s.heap, th.span, LookedUp(th) / PAGE_SIZE)
            && InUse(s'.heap, th.span) && s'.heap[th.span] == s.heap[th.span]
            && (th.pc.GiveHome? ==> th.cls < |table| && s.heap[th.span].size == table[th.cls].size)
  {
    hide Outside, Capacity, CachesOk, SlabsOk, Divisible, Counted, Lends, ThreadStep, AllLent, Lent, Backed,
         Shape, LeastClass;
    var th := s.threads[u];
    assert ThreadOk(table, s.cfls, th);
    StepKeeps(table, s, t, cpu, arg, os, s');
    HeldOutside(s', u);
    var c: nat :| c < |s.cfls| && Lends(s.cfls[c], th.span, LookedUp(th)) && (th.pc.GiveHome? ==> c == th.cls);
    LendsInUse(table, s, c, th.span, LookedUp(th));
    SpanStays(table, s, t, cpu, arg, os, s', c, th.span, LookedUp(th));
  }

  /** Only the locked section of a deallocate ends a span's use, and only of the span it freed into. */
  lemma OnlyGiveHome(table: seq<SizeClass>, s: State, t: nat, cpu: nat, arg: nat, os: Option<nat>, s': State, a: nat)
    requires Runs(table) && Inv(table, s) && ThreadStep(table, s, t, cpu, arg, os, s')
    requires InUse(s.heap, a) && !InUse(s'.heap, a)
    ensures GiveHomeStep(s, t, s') && s.threads[t].span == a
  {
    hide Inv, Divisible, StartAlloc, StartFree, PopStep, TakeCacheStep, TakeListStep, PickStep, PublishStep,
         DeliverStep, FindSpanStep, ReadSizeStep, PushStep, DrainStep, FillCacheStep, FindHomeStep, GiveHomeStep,
         Served;
    if GiveHomeStep(s, t, s') {
      GiveHomeHeap(table, s, t, s', a);
    } else if TakeListStep(table, s, t, os, s') {
      TakeListHeap(table, s, t, os, s', a);
    } else {
      OtherSame(table, s, t, cpu, arg, s');
    }
  }

  lemma GiveHomeHeap(table: seq<SizeClass>, s: State, t: nat, s': State, a: nat)
    requires Runs(table) && Inv(table, s) && t < |s.threads| && GiveHomeStep(s, t, s') && InUse(s.heap, a)
    ensures a != s.threads[t].span ==> InUse(s'.heap, a)
  {
    hide Outside, Capacity, CachesOk, SlabsOk, ThreadsOk, Divisible, Counted, Lends, GiveBack, FreeOp, CflOk,
         WellOrdered;
    var b := s.threads[t].span;
    if InUse(s.heap, b) {
      GiveBackLaws(s.heap, b);
    }
  }

  lemma TakeListHeap(table: seq<SizeClass>, s: State, t: nat, os: Option<nat>, s': State, a: nat)
    requires Runs(table) && Inv(table, s) && t < |s.threads| && TakeListStep(table, s, t, os, s') && InUse(s.heap, a)
    ensures InUse(s'.heap, a)
  {
    hide Outside, Capacity, CachesOk, SlabsOk, ThreadsOk, Divisible, Counted, Lends, CflOk, WellOrdered, AllocateOp,
         SpansInUse;
    var got :| TakesFromList(table, s, t, got, os, s');
    var d := s.threads[t].cls;
    GrantedLaws(s.heap, s'.heap, table[d], s.cfls[d], got, os);
  }

  /** A deallocate ends the use of its span exactly when the span is fully carved and the pointer
      freed is the last of its objects still outside. */
  lemma EndsUse(table: seq<SizeClass>, s: State, t: nat, s': State)
    requires Runs(table) && Inv(table, s) && t < |s.threads| && GiveHomeStep(s, t, s')
    ensures var th := s.threads[t];
            && th.cls < |s.cfls| && Listed(s.cfls[th.cls], th.span) && th.batch != []
            && var sp := s.cfls[th.cls].spans[Position(s.cfls[th.cls].spans, th.span)];
               !InUse(s'.heap, th.span) <==>
                 && sp.carved == sp.total
                 && forall i: nat | i < sp.total && Outside(s, Address(Object(th.span, i), s.cfls[th.cls].size)) > 0 ::
                      Address(Object(th.span, i), s.cfls[th.cls].size) == th.batch[0]
  {
    hide Outside, Capacity, CachesOk, SlabsOk, Divisible, Counted, Lends, AllLent, Lent, LeastClass, GiveBack,
         FreeOp, CflOk, WellOrdered, SpansInUse, ValidHeap, InSpan;
    var th := s.threads[t];
    assert ThreadOk(table, s.cfls, th);
    AllIndexed(table);
    var c, a, p := s.cfls[th.cls], th.span, th.batch[0];
    LendsPlace(table[th.cls], c, s.heap, a, p);
    var k, idx := Position(c.spans, a), PtrToIndex(p, a * PAGE_SIZE, c.size) as nat;
    GiveBackLaws(s.heap, a);
    ReleaseExact(c, k, idx);
    forall i: nat | i < c.spans[k].total
      ensures Outside(s, Address(Object(a, i), c.size)) > 0 <==> Outstanding(c.spans[k], i)
      ensures Address(Object(a, i), c.size) == p <==> i == idx
    {
      OutsideIffOut(table, s, th.cls, a, i);
      OutsOf(c, k, i);
      IndicesApart(i, idx, a * PAGE_SIZE, c.size);
    }
  }

  // ---- what allocate delivers ----

  /** What allocate(n) returns is a block of the least class that holds n bytes, inside one in-use
      span, without a byte in common with any other block outside the lists; and the size of its
      span leads back to its class. */
  lemma DeliveredBlock(table: seq<SizeClass>, s: State, t: nat, s': State)
    requires Runs(table) && Inv(table, s) && t < |s.threads| && DeliverStep(s, t, s')
    ensures var th := s.threads[t];
            var p, n, c := th.hand.value, th.want, th.cls;
            && p in s'.user && Outside(s', p) == 1
            && LeastClass(table, n, c) && 1 <= c < |table| && n <= table[c].size
            && (exists a: nat :: HoldsBlock(table, s', a, p, c))
            && forall d: nat, q: nat | d < |table| && d < |s'.cfls| && Lent(s'.cfls[d], q) && q != p ::
                 Apart(p, table[c].size, q, table[d].size)
  {
    hide Outside, Capacity, CachesOk, SlabsOk, Divisible, Lends, AllLent, Backed, WellOrdered;
    var th := s.threads[t];
    var p, c := th.hand.value, th.cls;
    assert ThreadOk(table, s.cfls, th);
    DeliverKeeps(table, s, t, s');
    SameLength(table, s);
    assert LentAny(s'.cfls, p);
    var a: nat :| Lends(s'.cfls[c], a, p);
    LendsInUse(table, s', c, a, p);
    BlockHome(table, s', c, a, p);
    forall d: nat, q: nat | d < |table| && d < |s'.cfls| && Lent(s'.cfls[d], q) && q != p
      ensures Apart(p, table[c].size, q, table[d].size)
    {
      var b: nat :| Lends(s'.cfls[d], b, q);
      BlocksApart(table, s'.heap, s'.cfls, c, a, p, d, b, q);
    }
  }

  /** The block at p lies inside the in-use span at a, whose size leads to class c. */
  ghost predicate HoldsBlock(table: seq<SizeClass>, s: State, a: nat, p: nat, c: nat) {
    && c < |table| && a in s.heap && s.heap[a] == SpanInfo(table[c].pages, table[c].size, false)
    && a * PAGE_SIZE <= p && p + table[c].size <= (a + table[c].pages) * PAGE_SIZE
    && forall idx: nat | SizeIndex(table, s.heap[a].size, idx) :: idx == c
  }

  lemma BlockHome(table: seq<SizeClass>, s: State, c: nat, a: nat, p: nat)
    requires Runs(table) && Inv(table, s) && c < |s.cfls| && Lends(s.cfls[c], a, p)
    ensures HoldsBlock(table, s, a, p, c)
  {
    hide Outside, Capacity, CachesOk, SlabsOk, ThreadsOk, Divisible, Counted, Lends, WellOrdered, Backed, SizeIndex;
    LendsInUse(table, s, c, a, p);
    forall idx: nat | SizeIndex(table, s.heap[a].size, idx)
      ensures idx == c
    {
      RoutesHome(table, s.heap, s.cfls, c, a, p, idx);
    }
  }

  /** Two different pointers that callers hold are blocks without a common byte, whatever their classes. */
  lemma CallersApart(table: seq<SizeClass>, s: State, p: nat, q: nat)
    requires Runs(table) && Inv(table, s) && p in s.user && q in s.user && p != q
    ensures s.user[p] == s.user[q] == 1
    ensures exists c: nat, d: nat :: c < |s.cfls| && d < |s.cfls| && Lent(s.cfls[c], p) && Lent(s.cfls[d], q)
    ensures forall c: nat, d: nat | c < |table| && d < |table| && Lent(s.cfls[c], p) && Lent(s.cfls[d], q) ::
              Apart(p, table[c].size, q, table[d].size)
  {
    hide Capacity, CachesOk, SlabsOk, ThreadsOk, Divisible, Lends, Backed, WellOrdered, Sum;
    SameLength(table, s);
    assert Outside(s, p) > 0 && Outside(s, q) > 0;
    var c: nat :| c < |s.cfls| && Lent(s.cfls[c], p);
    var d: nat :| d < |s.cfls| && Lent(s.cfls[d], q);
    forall c: nat, d: nat | c < |table| && d < |table| && Lent(s.cfls[c], p) && Lent(s.cfls[d], q)
      ensures Apart(p, table[c].size, q, table[d].size)
    {
      var a: nat, b: nat :| Lends(s.cfls[c], a, p) && Lends(s.cfls[d], b, q);
      BlocksApart(table, s.heap, s.cfls, c, a, p, d, b, q);
    }
  }
}
