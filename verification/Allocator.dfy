/** The allocator (allocator.hpp) as a step system: any number of threads and CPUs over the CPU
    slabs, transfer caches, central free lists and the page heap. One step is one access to shared
    state: a slab push or pop, InsertRange or RemoveRange, one locked section of a central free
    list, or one lookup in the page map. */
module AllocatorSteps {
  import opened Widths
  import opened PageHeapSpec
  import opened PackedLists
  import opened CflSpec
  import opened CflMemory
  import opened SizeClasses
  import opened SlabLayout

  datatype Op = Alloc | Free

  /** Where a thread is; each name is the access it makes next. */
  datatype Pc =
    | Idle
    | PopSlab       // allocate: slab_pop
    | TakeCache     // refill_batch: RemoveRange
    | TakeList      // refill_batch: one allocate of allocate_batch
    | Pick          // keep one of the batch
    | Publish       // push the rest into a slab
    | Deliver       // return to the caller
    | FindSpan      // deallocate: span_for
    | ReadSize      // read the span's size, outside any lock
    | PushSlab      // slab_push
    | Drain         // one slab_pop of the draining loop
    | PushAgain     // second slab_push
    | FillCache     // release_batch: InsertRange
    | FindHome      // one span_for of deallocate_batch, outside the list's lock
    | GiveHome      // the locked section that follows it

  /** A thread's local variables. `span` is what its last lookup returned. */
  datatype Thread = Thread(op: Op, pc: Pc, cls: nat, hand: Option<nat>, batch: seq<nat>, span: nat, want: nat)

  datatype State = State(
    heap: Heap,
    cfls: seq<Cfl>,                  // by class
    caches: seq<seq<nat>>,           // by class
    slabs: seq<seq<seq<nat>>>,       // by CPU, then class
    threads: seq<Thread>,
    user: multiset<nat>,             // what callers hold
    fault: bool                      // a lookup or a locked section met what it must not
  )

  /** A table the allocator can run on. */
  ghost predicate Runs(table: seq<SizeClass>) {
    && WellOrdered(table) && Divisible(table)
    && forall c | 1 <= c < |table| ::
         && NODE_SIZE <= table[c].size < UINT32_MAX && table[c].pages > 0
         && table[c].batchSize <= MAX_BATCH_SIZE && ObjectsPerSpan(table[c].size, table[c].pages) <= UINT16_MAX
  }

  ghost predicate Init(table: seq<SizeClass>, s: State) {
    && s.heap == map[] && |s.cfls| == |s.caches| == |table|
    && (forall c | 0 <= c < |table| :: s.cfls[c] == Cfl(table[c].size, table[c].pages, [], None) && s.caches[c] == [])
    && (forall cpu | 0 <= cpu < |s.slabs| :: |s.slabs[cpu]| == |table|)
    && (forall cpu, c | 0 <= cpu < |s.slabs| && 0 <= c < |table| :: s.slabs[cpu][c] == [])
    && (forall t | 0 <= t < |s.threads| :: s.threads[t] == Thread(Alloc, Idle, 0, None, [], 0, 0))
    && s.user == multiset{} && !s.fault
  }

  // ---- shared accesses ----

  /** What slab_pop returns on this CPU; nothing on a CPU without a slab. */
  function SlabTop(s: State, cpu: nat, c: nat): Option<nat> {
    if cpu < |s.slabs| && c < |s.slabs[cpu]| && s.slabs[cpu][c] != [] then
      Some(s.slabs[cpu][c][|s.slabs[cpu][c]| - 1])
    else None
  }

  function AfterPop(s: State, cpu: nat, c: nat): State
    requires SlabTop(s, cpu, c).Some?
  {
    var stack := s.slabs[cpu][c];
    s.(slabs := s.slabs[cpu := s.slabs[cpu][c := stack[..|stack| - 1]]])
  }

  /** Whether slab_push succeeds on this CPU. */
  ghost predicate SlabRoom(table: seq<SizeClass>, s: State, cpu: nat, c: nat)
    requires Divisible(table)
  {
    cpu < |s.slabs| && c < |s.slabs[cpu]| && c < |table| && |s.slabs[cpu][c]| < Capacity(table, c)
  }

  function AfterPush(s: State, cpu: nat, c: nat, p: nat): State
    requires cpu < |s.slabs| && c < |s.slabs[cpu]|
  {
    s.(slabs := s.slabs[cpu := s.slabs[cpu][c := s.slabs[cpu][c] + [p]]])
  }

  function Update(s: State, t: nat, th: Thread): State
    requires t < |s.threads|
  {
    s.(threads := s.threads[t := th])
  }

  /** Where a thread goes once its batch is released. */
  function Released(th: Thread): Thread {
    th.(batch := [], pc := if th.op.Alloc? then Deliver else if th.hand.Some? then PushAgain else Idle)
  }

  // ---- steps ----

  /** A caller asks for n bytes; requests longer than every class return null at once. */
  ghost predicate StartAlloc(table: seq<SizeClass>, s: State, t: nat, n: nat, s': State)
    requires t < |s.threads| && |table| >= 2
  {
    && s.threads[t].pc.Idle?
    && exists c: nat :: LeastClass(table, n, c) &&
         s' == if c == 0 then s else Update(s, t, Thread(Alloc, PopSlab, c, None, [], 0, n))
  }

  /** A caller frees a pointer it holds. */
  ghost predicate StartFree(s: State, t: nat, p: nat, s': State)
    requires t < |s.threads|
  {
    && s.threads[t].pc.Idle? && p in s.user
    && s' == Update(s, t, Thread(Free, FindSpan, 0, Some(p), [], 0, 0)).(user := s.user - multiset{p})
  }

  ghost predicate PopStep(s: State, t: nat, cpu: nat, s': State)
    requires t < |s.threads|
  {
    var th := s.threads[t];
    var top := SlabTop(s, cpu, th.cls);
    && th.pc.PopSlab?
    && s' == if top.Some? then Update(AfterPop(s, cpu, th.cls), t, th.(hand := top, pc := Deliver))
             else Update(s, t, th.(pc := TakeCache))
  }

  ghost predicate TakeCacheStep(table: seq<SizeClass>, s: State, t: nat, s': State)
    requires t < |s.threads|
  {
    var th := s.threads[t];
    && th.pc.TakeCache? && th.cls < |s.caches| && th.cls < |table|
    && var slots := s.caches[th.cls];
       var n := if table[th.cls].batchSize < |slots| then table[th.cls].batchSize as nat else |slots|;
       s' == Update(s, t, th.(batch := slots[|slots| - n..], pc := if n == 0 then TakeList else Pick))
             .(caches := s.caches[th.cls := slots[..|slots| - n]])
  }

  /** One locked allocate of the class's list, `got` being the span the page heap gave. */
  ghost predicate TakesFromList(table: seq<SizeClass>, s: State, t: nat, got: Option<nat>, os: Option<nat>, s': State)
    requires t < |s.threads|
  {
    var th := s.threads[t];
    && th.cls < |s.cfls| && th.cls < |table|
    && var c := s.cfls[th.cls];
       && CflOk(c) && Granted(s.heap, s'.heap, c, got, os)
       && var (c', o) := AllocateOp(c, got);
          var batch := if o.Some? then th.batch + [Address(o.value, c.size)] else th.batch;
          var done := o.None? || |batch| >= table[th.cls].batchSize;
          s' == Update(s, t, th.(batch := batch, pc := if done then Pick else TakeList))
                .(cfls := s.cfls[th.cls := c'], heap := s'.heap)
  }

  /** `os` is what the OS would answer. */
  ghost predicate TakeListStep(table: seq<SizeClass>, s: State, t: nat, os: Option<nat>, s': State)
    requires t < |s.threads|
  {
    s.threads[t].pc.TakeList? && exists got :: TakesFromList(table, s, t, got, os, s')
  }

  ghost predicate PickStep(s: State, t: nat, s': State)
    requires t < |s.threads|
  {
    var th := s.threads[t];
    var n := |th.batch|;
    && th.pc.Pick?
    && s' == Update(s, t, if n == 0 then th.(pc := Idle)
                          else th.(hand := Some(th.batch[n - 1]), batch := th.batch[..n - 1], pc := Publish))
  }

  ghost predicate PublishStep(table: seq<SizeClass>, s: State, t: nat, cpu: nat, s': State)
    requires t < |s.threads| && Divisible(table)
  {
    var th := s.threads[t];
    var n := |th.batch|;
    && th.pc.Publish?
    && s' == if n == 0 then Update(s, t, th.(pc := Deliver))
             else if SlabRoom(table, s, cpu, th.cls) then
               Update(AfterPush(s, cpu, th.cls, th.batch[n - 1]), t, th.(batch := th.batch[..n - 1]))
             else Update(s, t, th.(pc := FillCache))
  }

  ghost predicate DeliverStep(s: State, t: nat, s': State)
    requires t < |s.threads|
  {
    var th := s.threads[t];
    && th.pc.Deliver? && th.hand.Some?
    && s' == Update(s, t, th.(hand := None, pc := Idle)).(user := s.user + multiset{th.hand.value})
  }

  ghost predicate FindSpanStep(s: State, t: nat, s': State)
    requires t < |s.threads|
  {
    var th := s.threads[t];
    && th.pc.FindSpan? && th.hand.Some?
    && if Managed(s.heap, th.hand.value / PAGE_SIZE) then
         exists a: nat ::
            InSpan(s.heap, a, th.hand.value / PAGE_SIZE) && s' == Update(s, t, th.(span := a, pc := ReadSize))
       else
         s' == s.(fault := true)
  }

  /** The class is read off the span later, with no lock held; the span must still be there, and
      a span of class 0 would drop the pointer. */
  ghost predicate ReadSizeStep(table: seq<SizeClass>, s: State, t: nat, s': State)
    requires t < |s.threads| && |table| >= 1
  {
    var th := s.threads[t];
    && th.pc.ReadSize?
    && if th.span in s.heap then
         exists c: nat :: SizeIndex(table, s.heap[th.span].size, c)
           && s' == if c == 0 then s.(fault := true) else Update(s, t, th.(cls := c, pc := PushSlab))
       else
         s' == s.(fault := true)
  }

  ghost predicate PushStep(table: seq<SizeClass>, s: State, t: nat, cpu: nat, s': State)
    requires t < |s.threads| && Divisible(table)
  {
    var th := s.threads[t];
    && (th.pc.PushSlab? || th.pc.PushAgain?) && th.hand.Some?
    && s' == if SlabRoom(table, s, cpu, th.cls) then
               Update(AfterPush(s, cpu, th.cls, th.hand.value), t, th.(hand := None, pc := Idle))
             else if th.pc.PushSlab? then Update(s, t, th.(pc := Drain))
             else Update(s, t, th.(hand := None, batch := [th.hand.value], pc := FindHome))
  }

  ghost predicate DrainStep(table: seq<SizeClass>, s: State, t: nat, cpu: nat, s': State)
    requires t < |s.threads|
  {
    var th := s.threads[t];
    var top := SlabTop(s, cpu, th.cls);
    && th.pc.Drain? && th.cls < |table|
    && s' == if |th.batch| < table[th.cls].batchSize && top.Some? then
               Update(AfterPop(s, cpu, th.cls), t, th.(batch := th.batch + [top.value]))
             else
               Update(s, t, th.(pc := if th.batch == [] then PushAgain else FillCache))
  }

  ghost predicate FillCacheStep(s: State, t: nat, s': State)
    requires t < |s.threads|
  {
    var th := s.threads[t];
    && th.pc.FillCache? && th.cls < |s.caches|
    && var slots := s.caches[th.cls];
       var space := if |slots| < TRANSFER_CACHE_CAPACITY then TRANSFER_CACHE_CAPACITY - |slots| else 0;
       var n := if |th.batch| < space then |th.batch| else space;
       var th' := if n == |th.batch| then Released(th) else th.(batch := th.batch[n..], pc := FindHome);
       s' == Update(s, t, th').(caches := s.caches[th.cls := slots + th.batch[..n]])
  }

  ghost predicate FindHomeStep(s: State, t: nat, s': State)
    requires t < |s.threads|
  {
    var th := s.threads[t];
    && th.pc.FindHome? && th.batch != []
    && if Managed(s.heap, th.batch[0] / PAGE_SIZE) then
         exists a: nat ::
            InSpan(s.heap, a, th.batch[0] / PAGE_SIZE) && s' == Update(s, t, th.(span := a, pc := GiveHome))
       else
         s' == s.(fault := true)
  }

  /** The locked section of the list's deallocate, on the span found before the lock was taken. */
  ghost predicate GiveHomeStep(s: State, t: nat, s': State)
    requires t < |s.threads|
  {
    var th := s.threads[t];
    && th.pc.GiveHome? && th.batch != [] && th.cls < |s.cfls|
    && var c, ptr := s.cfls[th.cls], th.batch[0];
       var k := Position(c.spans, th.span);
       if k < |c.spans| && c.size > 0 && th.span * PAGE_SIZE <= ptr
          && Outstanding(c.spans[k], PtrToIndex(ptr, th.span * PAGE_SIZE, c.size)) && InUse(s.heap, th.span) then
         var idx := PtrToIndex(ptr, th.span * PAGE_SIZE, c.size);
         var rest := th.batch[1..];
         var th' := if rest == [] then Released(th) else th.(batch := rest, pc := FindHome);
         s' == Update(s, t, th').(cfls := s.cfls[th.cls := FreeOp(c, k, idx)],
                                  heap := if Releases(c, k) then GiveBack(s.heap, th.span) else s.heap)
       else
         s' == s.(fault := true)
  }

  /** What a step chooses besides its thread: a CPU, a request or pointer, the OS's answer. */
  ghost predicate ThreadStep(table: seq<SizeClass>, s: State, t: nat, cpu: nat, arg: nat, os: Option<nat>, s': State)
    requires |table| >= 2 && Divisible(table)
  {
    t < |s.threads| && (
      || StartAlloc(table, s, t, arg, s')
      || StartFree(s, t, arg, s')
      || PopStep(s, t, cpu, s')
      || TakeCacheStep(table, s, t, s')
      || TakeListStep(table, s, t, os, s')
      || PickStep(s, t, s')
      || PublishStep(table, s, t, cpu, s')
      || DeliverStep(s, t, s')
      || FindSpanStep(s, t, s')
      || ReadSizeStep(table, s, t, s')
      || PushStep(table, s, t, cpu, s')
      || DrainStep(table, s, t, cpu, s')
      || FillCacheStep(s, t, s')
      || FindHomeStep(s, t, s')
      || GiveHomeStep(s, t, s'))
  }

  ghost predicate Next(table: seq<SizeClass>, s: State, s': State)
    requires |table| >= 2 && Divisible(table)
  {
    exists t, cpu, arg, os :: ThreadStep(table, s, t, cpu, arg, os, s')
  }
}
