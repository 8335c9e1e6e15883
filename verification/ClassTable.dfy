/** What the size class table (size_classes.hpp) means for the allocator that runs on it. */
module ClassTable {
  import opened Arithmetic
  import opened Widths
  import opened PageHeapSpec
  import opened PackedLists
  import opened CflSpec
  import opened CflLaws
  import opened CflMemory
  import opened SizeClasses
  import opened SlabLayout
  import opened AllocatorSteps
  import opened AllocatorLaws
  import opened AllocatorRuns
  import opened AllocatorSafety
  import opened AllocatorProgress

  lemma TableBounds()
    ensures forall c | 1 <= c < |SIZE_CLASSES| ::
              && 8 <= SIZE_CLASSES[c].size <= 262144 && 1 <= SIZE_CLASSES[c].pages <= 32
              && 1 <= SIZE_CLASSES[c].batchSize <= MAX_BATCH_SIZE
  {
  }

  /** The table is one the allocator can run on: sizes ascend, a free object holds a list node,
      and the objects of a span have 16-bit indices. */
  lemma TableRuns()
    ensures Runs(SIZE_CLASSES)
  {
    TableWellOrdered();
    TableBounds();
    forall c | 1 <= c < |SIZE_CLASSES|
      ensures ObjectsPerSpan(SIZE_CLASSES[c].size, SIZE_CLASSES[c].pages) <= UINT16_MAX
    {
      MulMonotone(8, SIZE_CLASSES[c].size, UINT16_MAX);
      DivAtMost(SIZE_CLASSES[c].pages * PAGE_SIZE, SIZE_CLASSES[c].size, UINT16_MAX);
    }
  }

  /** One object of the class is longer than the spans its list asks for. */
  predicate Dead(sc: SizeClass) {
    sc.pages * PAGE_SIZE < sc.size
  }

  /** The classes of 8192 and 16384 bytes and all from 32768 up. */
  lemma DeadClasses()
    ensures |SIZE_CLASSES| == 48
    ensures forall c | 1 <= c < 48 :: Dead(SIZE_CLASSES[c]) <==> c == 30 || c == 33 || c >= 36
  {
  }

  lemma NothingBelow(s: seq<nat>, n: nat)
    requires forall i | i in s :: i < n
    ensures s == [] || n > 0
  {
    if s != [] {
      assert s[0] in s;
    }
  }

  /** The list of such a class never has an object to give, whatever the page heap gave it. */
  lemma DeadGivesNothing(sc: SizeClass, c: Cfl, got: Option<nat>)
    requires Dead(sc) && c.size == sc.size && c.pages == sc.pages && CflOk(c)
    requires got.Some? ==> Asks(c) && Position(c.spans, got.value) == |c.spans|
    ensures AllocateOp(c, got).1.None?
  {
    ZeroObjects(c.size, c.pages);
    AllocateComplete(c, got);
    forall k | 0 <= k < |c.spans|
      ensures !HasAvailable(c.spans[k])
    {
      NothingBelow(c.spans[k].free, c.spans[k].carved);
    }
  }

  /** The requests whose least class is not dead. */
  lemma LivingRequests(n: nat, c: nat)
    requires LeastClass(SIZE_CLASSES, n, c) && 1 <= c < |SIZE_CLASSES| && n <= SIZE_CLASSES[c].size
    ensures !Dead(SIZE_CLASSES[c]) <==> n <= 6144 || 8192 < n <= 12288 || 16384 < n <= 28672
  {
    DeadClasses();
    var t := SIZE_CLASSES;
    assert t[29].size == 6144 && t[30].size == 8192 && t[32].size == 12288 && t[33].size == 16384
           && t[35].size == 28672;
    TableWellOrdered();
  }

  /** The allocator's invariant on this table. */
  ghost predicate OnTable(s: State) {
    TableRuns();
    Inv(SIZE_CLASSES, s)
  }

  ghost predicate TableStep(s: State, t: nat, cpu: nat, arg: nat, os: Option<nat>, s': State) {
    TableRuns();
    ThreadStep(SIZE_CLASSES, s, t, cpu, arg, os, s')
  }

  /** On this table allocate(n) returns memory only for the n some live class serves. */
  lemma DeliversOnly(s: State, t: nat, s': State)
    requires OnTable(s) && t < |s.threads| && DeliverStep(s, t, s')
    ensures var n := s.threads[t].want; n <= 6144 || 8192 < n <= 12288 || 16384 < n <= 28672
  {
    hide Inv, Runs, LeastClass;
    TableRuns();
    DeliveredBlock(SIZE_CLASSES, s, t, s');
    LivingRequests(s.threads[t].want, s.threads[t].cls);
  }

  /** And for those it comes back empty only when the class's list has no object, no free span is long
      enough and the OS has no pages. */
  lemma FailsOnly(s: State, t: nat, cpu: nat, arg: nat, os: Option<nat>, s': State)
    requires OnTable(s) && TableStep(s, t, cpu, arg, os, s')
    requires t < |s.threads| && t < |s'.threads| && s'.threads[t].pc.Pick? && s'.threads[t].batch == []
    ensures LeastClass(SIZE_CLASSES, s.threads[t].want, s.threads[t].cls)
    ensures s.threads[t].cls < |s.cfls| && s.threads[t].cls < |SIZE_CLASSES| && NoObject(s.cfls[s.threads[t].cls])
    ensures var n, sc := s.threads[t].want, SIZE_CLASSES[s.threads[t].cls];
            n <= 6144 || 8192 < n <= 12288 || 16384 < n <= 28672 ==> os.None? && !AnyFits(s.heap, sc.pages)
  {
    hide Inv, Runs, LeastClass, ThreadStep, NoObject, TakeListStep, AnyFits, Divisible;
    TableRuns();
    NullOnlyStarved(SIZE_CLASSES, s, t, cpu, arg, os, s');
    RequestFacts(SIZE_CLASSES, s, t, os, s');
    LivingRequests(s.threads[t].want, s.threads[t].cls);
  }

  lemma RequestFacts(table: seq<SizeClass>, s: State, t: nat, os: Option<nat>, s': State)
    requires Runs(table) && Inv(table, s) && t < |s.threads| && TakeListStep(table, s, t, os, s')
    ensures var th := s.threads[t];
            && LeastClass(table, th.want, th.cls) && 1 <= th.cls < |table| && th.cls < |s.cfls|
            && th.want <= table[th.cls].size && table[th.cls].size > 0 && table[th.cls].pages > 0
            && s.cfls[th.cls].size == table[th.cls].size && s.cfls[th.cls].pages == table[th.cls].pages
  {
    hide Outside, Capacity, CachesOk, SlabsOk, Divisible, Counted, Lends, AllLent, CflOk, SpansInUse, ValidHeap,
         TakesFromList;
    assert ThreadOk(table, s.cfls, s.threads[t]);
    SameLength(table, s);
  }

  // ---- what a dead class costs ----

  /** Every allocate of a dead class that gets a span puts one more span on its list. */
  lemma DeadGrows(sc: SizeClass, c: Cfl, a: nat)
    requires Dead(sc) && c.size == sc.size && c.pages == sc.pages && CflOk(c) && Asks(c)
             && Position(c.spans, a) == |c.spans|
    ensures AllocateOp(c, Some(a)).0.spans == [SpanState(a, 0, 0, [])] + c.spans
  {
    ZeroObjects(c.size, c.pages);
    ReadyOk(c, Some(a));
    var c2 := Ready(c, Some(a));
    assert c2.spans == [SpanState(a, 0, 0, [])] + c.spans && Position(c2.spans, a) == 0;
    assert c2.spans[0 := c2.spans[0]] == c2.spans;
  }

  /** No step takes a span off the list of a dead class. */
  lemma DeadStays(table: seq<SizeClass>, s: State, t: nat, cpu: nat, arg: nat, os: Option<nat>, s': State, c: nat,
                  a: nat)
    requires Runs(table) && Inv(table, s) && ThreadStep(table, s, t, cpu, arg, os, s')
    requires c < |table| && c < |s.cfls| && c < |s'.cfls| && Dead(table[c]) && Listed(s.cfls[c], a)
    ensures Inv(table, s') && Listed(s'.cfls[c], a)
    ensures InUse(s.heap, a) && a in s'.heap && s'.heap[a] == s.heap[a]
  {
    hide Inv, Kept, Divisible, Listed, StartAlloc, StartFree, PopStep, TakeCacheStep, TakeListStep, PickStep,
         PublishStep, DeliverStep, FindSpanStep, ReadSizeStep, PushStep, DrainStep, FillCacheStep, FindHomeStep,
         GiveHomeStep;
    StepKeeps(table, s, t, cpu, arg, os, s');
    if TakeListStep(table, s, t, os, s') {
      TakeListStays(table, s, t, os, s', c, a);
    } else if GiveHomeStep(s, t, s') {
      GiveHomeStays(table, s, t, s', c, a);
    } else {
      OtherSame(table, s, t, cpu, arg, s');
    }
    ListedInUse(table, s, c, a);
    ListedInUse(table, s', c, a);
  }

  lemma ListedInUse(table: seq<SizeClass>, s: State, c: nat, a: nat)
    requires Runs(table) && Inv(table, s) && c < |s.cfls| && Listed(s.cfls[c], a)
    ensures c < |table| && a in s.heap && s.heap[a] == SpanInfo(table[c].pages, table[c].size, false)
  {
    hide Outside, Capacity, CachesOk, SlabsOk, ThreadsOk, Divisible, Counted, CflOk, ValidHeap;
    ListsInUse(s.cfls[c], s.heap);
  }

  lemma TakeListStays(table: seq<SizeClass>, s: State, t: nat, os: Option<nat>, s': State, c: nat, a: nat)
    requires Runs(table) && Inv(table, s) && t < |s.threads| && TakeListStep(table, s, t, os, s')
    requires c < |s.cfls| && c < |s'.cfls| && Listed(s.cfls[c], a)
    ensures Listed(s'.cfls[c], a)
  {
    hide Outside, Capacity, CachesOk, SlabsOk, ThreadsOk, Divisible, Counted, CflOk, AllocateOp, Served, Chosen,
         SpansInUse, Listed;
    var got :| TakesFromList(table, s, t, got, os, s');
    var d := s.threads[t].cls;
    AllocatedList(table[d], s.heap, s'.heap, s.cfls[d], got, os);
  }

  lemma GiveHomeStays(table: seq<SizeClass>, s: State, t: nat, s': State, c: nat, a: nat)
    requires Runs(table) && Inv(table, s) && t < |s.threads| && GiveHomeStep(s, t, s')
    requires c < |table| && c < |s.cfls| && c < |s'.cfls| && Dead(table[c]) && Listed(s.cfls[c], a)
    ensures Listed(s'.cfls[c], a)
  {
    hide Outside, Capacity, CachesOk, SlabsOk, ThreadsOk, Divisible, Counted, SpansInUse, Listed, FreeOp, GiveBack,
         ValidHeap;
    if s.threads[t].cls == c {
      NoneOut(table[c], s.cfls[c], Position(s.cfls[c].spans, s.threads[t].span));
    }
  }

  /** A dead class has nothing out. */
  lemma NoneOut(sc: SizeClass, c: Cfl, k: nat)
    requires Dead(sc) && c.size == sc.size && c.pages == sc.pages && CflOk(c)
    ensures k < |c.spans| ==> forall i: nat :: !Outstanding(c.spans[k], i)
  {
    ZeroObjects(c.size, c.pages);
  }

  /** In every run from there on, a span a dead class has got stays with it: the page heap never gets it
      back, and no caller anything from it. */
  lemma {:induction false} DeadForever(table: seq<SizeClass>, states: seq<State>, who: seq<nat>, c: nat, a: nat)
    requires Runs(table) && Scheduled(table, states, who) && Inv(table, states[0])
    requires c < |table| && c < |states[0].cfls| && Dead(table[c]) && Listed(states[0].cfls[c], a)
    ensures Inv(table, states[|who|]) && c < |states[|who|].cfls| && Listed(states[|who|].cfls[c], a)
    ensures InUse(states[0].heap, a) && a in states[|who|].heap && states[|who|].heap[a] == states[0].heap[a]
    decreases |who|
  {
    hide Inv, ThreadStep, Divisible, Listed, Dead;
    if who == [] {
      ListedInUse(table, states[0], c, a);
    } else {
      var n := |who| - 1;
      DeadForever(table, states[..n + 1], who[..n], c, a);
      var s, u, s' := states[n], who[n], states[n + 1];
      assert StepOf(table, s, u, s');
      var cpu: nat, arg: nat, os :| ThreadStep(table, s, u, cpu, arg, os, s');
      StepKeeps(table, s, u, cpu, arg, os, s');
      SameLength(table, s);
      SameLength(table, s');
      DeadStays(table, s, u, cpu, arg, os, s', c, a);
    }
  }
}
