/** What the allocator's calls get done: every call ends, and one comes back empty only when nothing
    is left to give. */
module AllocatorProgress {
  import opened Counting
  import opened Widths
  import opened PageHeapSpec
  import opened PackedLists
  import opened CflSpec
  import opened CflLaws
  import opened CflMemory
  import opened SizeClasses
  import opened SlabLayout
  import opened BatchMoves
  import opened AllocatorSteps
  import opened AllocatorLaws
  import opened AllocatorRuns
  import opened AllocatorSafety

  // ---- no thread is ever stuck ----

  lemma LeastFit(h: Heap, n: nat, among: set<nat>) returns (a: nat)
    requires among != {} && forall x | x in among :: Fits(h, x, n)
    ensures a in among
    ensures forall b | b in among ::
        a in h && b in h && (h[a].pages < h[b].pages || (h[a].pages == h[b].pages && a <= b))
    decreases |among|
  {
    var x :| x in among;
    if among == {x} {
      return x;
    }
    var b := LeastFit(h, n, among - {x});
    a := if h[x].pages < h[b].pages || (h[x].pages == h[b].pages && x <= b) then x else b;
    forall y | y in among
      ensures a in h && y in h
      ensures h[a].pages < h[y].pages || (h[a].pages == h[y].pages && a <= y)
    {
      assert y != x ==> y in among - {x};
    }
  }

  /** Whatever the heap holds, the page heap has an answer to a list that asks. */
  lemma GrantExists(h: Heap, c: Cfl)
    requires CflOk(c)
    ensures exists h', got :: Granted(h, h', c, got, None)
  {
    if Asks(c) && AnyFits(h, c.pages) {
      var x: nat :| Fits(h, x, c.pages);
      var fitting := set y: nat | y in h && Fits(h, y, c.pages);
      assert x in fitting;
      var a := LeastFit(h, c.pages, fitting);
      assert forall y: nat | Fits(h, y, c.pages) :: y in fitting;
      assert BestFit(h, a, c.pages);
      assert Granted(h, TakeSpan(h, a, c.pages, c.size), c, Some(a), None);
    } else {
      assert Granted(h, h, c, None, None);
    }
  }

  lemma TakeListEnabled(table: seq<SizeClass>, s: State, t: nat)
    requires Runs(table) && Inv(table, s) && t < |s.threads| && s.threads[t].pc.TakeList?
    ensures exists s' :: TakeListStep(table, s, t, None, s')
  {
    hide Outside, Capacity, CachesOk, SlabsOk, Divisible, Lends, AllLent, WellOrdered, Granted, CflOk, AllocateOp,
         Served, BestFit, Chosen;
    var th := s.threads[t];
    assert ThreadOk(table, s.cfls, th);
    var c := s.cfls[th.cls];
    GrantExists(s.heap, c);
    var h', got :| Granted(s.heap, h', c, got, None);
    GrantedAsks(s.heap, h', c, got, None);
    var (c', o) := AllocateOp(c, got);
    var batch := if o.Some? then th.batch + [Address(o.value, c.size)] else th.batch;
    var done := o.None? || |batch| >= table[th.cls].batchSize;
    var s' := Update(s, t, th.(batch := batch, pc := if done then Pick else TakeList))
              .(cfls := s.cfls[th.cls := c'], heap := h');
    assert s'.heap == h' && TakesFromList(table, s, t, got, None, s');
    assert TakeListStep(table, s, t, None, s');
  }

  lemma GrantedAsks(h: Heap, h': Heap, c: Cfl, got: Option<nat>, os: Option<nat>)
    requires Granted(h, h', c, got, os)
    ensures got.Some? ==> c.size > 0 && c.pages > 0
  {
  }

  lemma FindEnabled(table: seq<SizeClass>, s: State, t: nat)
    requires Runs(table) && Inv(table, s) && t < |s.threads|
    ensures s.threads[t].pc.FindSpan? ==> exists s' :: FindSpanStep(s, t, s')
    ensures s.threads[t].pc.FindHome? ==> exists s' :: FindHomeStep(s, t, s')
    ensures s.threads[t].pc.ReadSize? ==> exists s' :: ReadSizeStep(table, s, t, s')
  {
    hide Outside, Capacity, CachesOk, SlabsOk, Divisible, Lends, AllLent, InSpan, Backed;
    var th := s.threads[t];
    assert ThreadOk(table, s.cfls, th);
    match th.pc
    case FindSpan =>
      if a: nat :| InSpan(s.heap, a, th.hand.value / PAGE_SIZE) {
        assert FindSpanStep(s, t, Update(s, t, th.(span := a, pc := ReadSize)));
      } else {
        assert FindSpanStep(s, t, s.(fault := true));
      }
    case FindHome =>
      if a: nat :| InSpan(s.heap, a, th.batch[0] / PAGE_SIZE) {
        assert FindHomeStep(s, t, Update(s, t, th.(span := a, pc := GiveHome)));
      } else {
        assert FindHomeStep(s, t, s.(fault := true));
      }
    case ReadSize =>
      if th.span in s.heap {
        var c := IndexExists(table, s.heap[th.span].size);
        assert ReadSizeStep(table, s, t, if c == 0 then s.(fault := true)
                            else Update(s, t, th.(cls := c, pc := PushSlab)));
      } else {
        assert ReadSizeStep(table, s, t, s.(fault := true));
      }
    case _ =>
  }

  lemma IndexExists(table: seq<SizeClass>, size: nat) returns (idx: nat)
    requires |table| >= 1
    ensures SizeIndex(table, size, idx)
  {
    idx := 0;
    while idx < |table| - 1 && table[idx].size < size
      invariant idx < |table| && forall j | 0 <= j < idx :: table[j].size < size
    {
      idx := idx + 1;
    }
  }

  /** A step whose outcome is fixed by the state and the CPU. */
  ghost predicate AccessStep(table: seq<SizeClass>, s: State, t: nat, cpu: nat, s': State)
    requires t < |s.threads| && Divisible(table)
  {
    || PopStep(s, t, cpu, s') || TakeCacheStep(table, s, t, s') || PickStep(s, t, s')
    || PublishStep(table, s, t, cpu, s')
    || DeliverStep(s, t, s') || PushStep(table, s, t, cpu, s') || DrainStep(table, s, t, cpu, s')
    || FillCacheStep(s, t, s')
    || GiveHomeStep(s, t, s')
  }

  lemma AccessEnabled(table: seq<SizeClass>, s: State, t: nat, cpu: nat)
    requires Runs(table) && Inv(table, s) && t < |s.threads|
    ensures var pc := s.threads[t].pc;
            pc.Idle? || pc.TakeList? || pc.FindSpan? || pc.FindHome? || pc.ReadSize?
            || exists s' :: AccessStep(table, s, t, cpu, s')
  {
    hide Outside, Capacity, CachesOk, SlabsOk, Divisible, Lends, AllLent, Backed, CflOk, GiveBack, FreeOp, Outstanding;
    var th, cls := s.threads[t], s.threads[t].cls;
    assert ThreadOk(table, s.cfls, th);
    SameLength(table, s);
    var top, n, room := SlabTop(s, cpu, cls), |th.batch|, SlabRoom(table, s, cpu, cls);
    match th.pc
    case PopSlab =>
      assert AccessStep(table, s, t, cpu,
        if top.Some? then Update(AfterPop(s, cpu, cls), t, th.(hand := top, pc := Deliver))
           else Update(s, t, th.(pc := TakeCache)));
    case TakeCache =>
      var slots := s.caches[cls];
      var k := if table[cls].batchSize < |slots| then table[cls].batchSize as nat else |slots|;
      assert AccessStep(table, s, t, cpu,
                        Update(s, t, th.(batch := slots[|slots| - k..], pc := if k == 0 then TakeList else Pick))
                                          .(caches := s.caches[cls := slots[..|slots| - k]]));
    case Pick =>
      assert AccessStep(table, s, t, cpu,
        Update(s, t, if n == 0 then th.(pc := Idle)
               else th.(hand := Some(th.batch[n - 1]), batch := th.batch[..n - 1], pc := Publish)));
    case Publish =>
      assert AccessStep(table, s, t, cpu,
        if n == 0 then Update(s, t, th.(pc := Deliver))
        else if room then Update(AfterPush(s, cpu, cls, th.batch[n - 1]), t, th.(batch := th.batch[..n - 1]))
        else Update(s, t, th.(pc := FillCache)));
    case Deliver =>
      assert AccessStep(table, s, t, cpu,
        Update(s, t, th.(hand := None, pc := Idle)).(user := s.user + multiset{th.hand.value}));
    case PushSlab =>
      assert AccessStep(table, s, t, cpu,
        if room then Update(AfterPush(s, cpu, cls, th.hand.value), t, th.(hand := None, pc := Idle))
        else Update(s, t, th.(pc := Drain)));
    case PushAgain =>
      assert AccessStep(table, s, t, cpu,
        if room then Update(AfterPush(s, cpu, cls, th.hand.value), t, th.(hand := None, pc := Idle))
        else Update(s, t, th.(hand := None, batch := [th.hand.value], pc := FindHome)));
    case Drain =>
      assert AccessStep(table, s, t, cpu,
        if n < table[cls].batchSize && top.Some? then
          Update(AfterPop(s, cpu, cls), t, th.(batch := th.batch + [top.value]))
        else Update(s, t, th.(pc := if th.batch == [] then PushAgain else FillCache)));
    case FillCache =>
      var slots := s.caches[cls];
      var space := if |slots| < TRANSFER_CACHE_CAPACITY then TRANSFER_CACHE_CAPACITY - |slots| else 0;
      var k := if n < space then n else space;
      assert AccessStep(table, s, t, cpu,
        Update(s, t, if k == n then Released(th) else th.(batch := th.batch[k..], pc := FindHome))
        .(caches := s.caches[cls := slots + th.batch[..k]]));
    case GiveHome =>
      GiveHomeEnabled(s, t);
      var s' :| GiveHomeStep(s, t, s');
      assert AccessStep(table, s, t, cpu, s');
    case _ =>
  }

  lemma GiveHomeEnabled(s: State, t: nat)
    requires t < |s.threads| && s.threads[t].pc.GiveHome? && s.threads[t].batch != [] && s.threads[t].cls < |s.cfls|
    ensures exists s' :: GiveHomeStep(s, t, s')
  {
    hide CflOk, GiveBack, FreeOp, Outstanding;
    var th := s.threads[t];
    var c, ptr := s.cfls[th.cls], th.batch[0];
    var k := Position(c.spans, th.span);
    if k < |c.spans| && c.size > 0 && th.span * PAGE_SIZE <= ptr
       && Outstanding(c.spans[k], PtrToIndex(ptr, th.span * PAGE_SIZE, c.size)) && InUse(s.heap, th.span) {
      var idx := PtrToIndex(ptr, th.span * PAGE_SIZE, c.size);
      var rest := th.batch[1..];
      var th' := if rest == [] then Released(th) else th.(batch := rest, pc := FindHome);
      assert GiveHomeStep(s, t, Update(s, t, th').(cfls := s.cfls[th.cls := FreeOp(c, k, idx)],
                                                   heap := if Releases(c, k) then GiveBack(s.heap, th.span)
                                                      else s.heap));
    } else {
      assert GiveHomeStep(s, t, s.(fault := true));
    }
  }

  /** A thread in the middle of an allocation or deallocation always has a next step, on any CPU
      and even when the OS gives nothing. */
  lemma NeverStuck(table: seq<SizeClass>, s: State, t: nat, cpu: nat)
    requires Runs(table) && Inv(table, s) && t < |s.threads| && !s.threads[t].pc.Idle?
    ensures exists s' :: ThreadStep(table, s, t, cpu, 0, None, s')
  {
    hide Inv, StartAlloc, StartFree, PopStep, TakeCacheStep, TakeListStep, PickStep, PublishStep, DeliverStep,
         FindSpanStep, ReadSizeStep, PushStep, DrainStep, FillCacheStep, FindHomeStep, GiveHomeStep, Divisible;
    AccessEnabled(table, s, t, cpu);
    FindEnabled(table, s, t);
    var pc := s.threads[t].pc;
    if pc.TakeList? {
      TakeListEnabled(table, s, t);
      var s' :| TakeListStep(table, s, t, None, s');
      assert ThreadStep(table, s, t, cpu, 0, None, s');
    } else if pc.FindSpan? {
      var s' :| FindSpanStep(s, t, s');
      assert ThreadStep(table, s, t, cpu, 0, None, s');
    } else if pc.FindHome? {
      var s' :| FindHomeStep(s, t, s');
      assert ThreadStep(table, s, t, cpu, 0, None, s');
    } else if pc.ReadSize? {
      var s' :| ReadSizeStep(table, s, t, s');
      assert ThreadStep(table, s, t, cpu, 0, None, s');
    } else {
      var s' :| AccessStep(table, s, t, cpu, s');
      assert ThreadStep(table, s, t, cpu, 0, None, s');
    }
  }

  // ---- every call ends ----

  /** How many more of its own steps a call can take at most. */
  function StepsLeft(th: Thread): int {
    var b := |th.batch|;
    var tail := if th.op.Alloc? then 1 else if th.hand.Some? then 3 else 0;
    match th.pc
    case Idle => 0
    case Deliver => 1
    case PushAgain => 3
    case GiveHome => 2 * b - 1 + tail
    case FindHome => 2 * b + tail
    case FillCache => 2 * b + 1 + tail
    case Publish => 3 * b + 3
    case Pick => 3 * b + 1
    case TakeList => 130 - b
    case TakeCache => 131
    case PopSlab => 132
    case Drain => 101 - b
    case PushSlab => 102
    case ReadSize => 103
    case FindSpan => 104
  }

  lemma StepsBounded(table: seq<SizeClass>, s: State, t: nat)
    requires Runs(table) && Inv(table, s) && t < |s.threads|
    ensures 0 <= StepsLeft(s.threads[t]) <= 132
  {
    hide Outside, Capacity, CachesOk, SlabsOk, Divisible, Counted, Lends, AllLent, Backed, LeastClass;
    assert ThreadOk(table, s.cfls, s.threads[t]);
  }

  /** What a thread's place in the program says about its batch, its hand and its call. */
  lemma Bounds(table: seq<SizeClass>, s: State, t: nat)
    requires Runs(table) && Inv(table, s) && t < |s.threads|
    ensures var th := s.threads[t];
            && |th.batch| <= MAX_BATCH_SIZE
            && (th.pc.TakeList? || th.pc.TakeCache? || th.pc.Drain? ==>
                  && 1 <= th.cls < |table| && table[th.cls].batchSize <= MAX_BATCH_SIZE
                  && (th.pc.TakeList? ==> |th.batch| < table[th.cls].batchSize))
            && (th.pc.PopSlab? || th.pc.TakeCache? || th.pc.TakeList? || th.pc.Pick? || th.pc.Publish?
                || th.pc.Deliver? ==>
                  th.op.Alloc?)
            && (th.pc.FindSpan? || th.pc.ReadSize? || th.pc.PushSlab? || th.pc.Drain? || th.pc.PushAgain? ==>
                  th.op.Free? && th.hand.Some?)
            && (th.pc.FillCache? || th.pc.FindHome? || th.pc.GiveHome? ==> th.batch != [])
  {
    hide Outside, Capacity, CachesOk, SlabsOk, Divisible, Counted, Lends, AllLent, Backed, LeastClass;
    assert ThreadOk(table, s.cfls, s.threads[t]);
    SameLength(table, s);
  }

  lemma AllocateOwn(table: seq<SizeClass>, s: State, t: nat, cpu: nat, os: Option<nat>, s': State)
    requires Runs(table) && Inv(table, s) && t < |s.threads|
    requires || PopStep(s, t, cpu, s') || TakeCacheStep(table, s, t, s') || TakeListStep(table, s, t, os, s')
             || PickStep(s, t, s') || PublishStep(table, s, t, cpu, s') || DeliverStep(s, t, s')
    ensures t < |s'.threads| && StepsLeft(s'.threads[t]) < StepsLeft(s.threads[t])
  {
    hide Inv, Divisible, WellOrdered, SlabRoom, SlabTop, Served, Chosen, AllocateOp, CflOk;
    Bounds(table, s, t);
    if TakeListStep(table, s, t, os, s') {
      var got :| TakesFromList(table, s, t, got, os, s');
      var th, th', o := s.threads[t], s'.threads[t], AllocateOp(s.cfls[s.threads[t].cls], got).1;
      if o.Some? {
        assert |th'.batch| == |th.batch| + 1 <= MAX_BATCH_SIZE;
      } else {
        assert th' == th.(pc := Pick);
      }
    }
  }

  lemma FreeOwn(table: seq<SizeClass>, s: State, t: nat, cpu: nat, s': State)
    requires Runs(table) && Inv(table, s) && t < |s.threads| && !s'.fault
    requires FindSpanStep(s, t, s') || ReadSizeStep(table, s, t, s') || PushStep(table, s, t, cpu, s')
             || DrainStep(table, s, t, cpu, s')
    ensures t < |s'.threads| && StepsLeft(s'.threads[t]) < StepsLeft(s.threads[t])
  {
    hide Inv, Divisible, WellOrdered, SlabRoom, SlabTop, InSpan, Managed, SizeIndex;
    Bounds(table, s, t);
  }

  lemma ReleaseOwn(table: seq<SizeClass>, s: State, t: nat, s': State)
    requires Runs(table) && Inv(table, s) && t < |s.threads| && !s'.fault
    requires FillCacheStep(s, t, s') || FindHomeStep(s, t, s') || GiveHomeStep(s, t, s')
    ensures t < |s'.threads| && StepsLeft(s'.threads[t]) < StepsLeft(s.threads[t])
  {
    hide Inv, Divisible, WellOrdered, InSpan, Managed, FreeOp, GiveBack, Outstanding;
    Bounds(table, s, t);
  }

  /** Every step a thread takes inside a call brings its end closer. */
  lemma OwnStep(table: seq<SizeClass>, s: State, t: nat, cpu: nat, arg: nat, os: Option<nat>, s': State)
    requires Runs(table) && Inv(table, s) && ThreadStep(table, s, t, cpu, arg, os, s') && !s.threads[t].pc.Idle?
    ensures t < |s'.threads| && StepsLeft(s'.threads[t]) < StepsLeft(s.threads[t])
  {
    StepKeeps(table, s, t, cpu, arg, os, s');
    assert !s'.fault;
    hide Inv, Kept, PopStep, TakeCacheStep, TakeListStep, PickStep, PublishStep, DeliverStep, FindSpanStep,
         ReadSizeStep, PushStep, DrainStep, FillCacheStep, FindHomeStep, GiveHomeStep, Divisible, WellOrdered,
         StepsLeft;
    if FindSpanStep(s, t, s') || ReadSizeStep(table, s, t, s') || PushStep(table, s, t, cpu, s')
       || DrainStep(table, s, t, cpu, s') {
      FreeOwn(table, s, t, cpu, s');
    } else if FillCacheStep(s, t, s') || FindHomeStep(s, t, s') || GiveHomeStep(s, t, s') {
      ReleaseOwn(table, s, t, s');
    } else {
      AllocateOwn(table, s, t, cpu, os, s');
    }
  }

  /** A step touches no other thread's variables. */
  lemma OtherThreads(table: seq<SizeClass>, s: State, t: nat, cpu: nat, arg: nat, os: Option<nat>, s': State)
    requires Runs(table) && ThreadStep(table, s, t, cpu, arg, os, s')
    ensures |s'.threads| == |s.threads| && forall u | 0 <= u < |s.threads| && u != t :: s'.threads[u] == s.threads[u]
  {
    hide Divisible, TakeListStep, GiveHomeStep, StartAlloc, StartFree, PopStep, TakeCacheStep, PickStep, PublishStep,
         DeliverStep, FindSpanStep, ReadSizeStep, PushStep, DrainStep, FillCacheStep, FindHomeStep;
    if TakeListStep(table, s, t, os, s') {
      TakeListThreads(table, s, t, os, s');
    } else if GiveHomeStep(s, t, s') {
      GiveHomeThreads(s, t, s');
    } else {
      OtherSame(table, s, t, cpu, arg, s');
    }
  }

  lemma TakeListThreads(table: seq<SizeClass>, s: State, t: nat, os: Option<nat>, s': State)
    requires t < |s.threads| && TakeListStep(table, s, t, os, s')
    ensures |s'.threads| == |s.threads| && forall u | 0 <= u < |s.threads| && u != t :: s'.threads[u] == s.threads[u]
  {
    hide Granted, AllocateOp, CflOk;
  }

  lemma GiveHomeThreads(s: State, t: nat, s': State)
    requires t < |s.threads| && GiveHomeStep(s, t, s')
    ensures |s'.threads| == |s.threads| && forall u | 0 <= u < |s.threads| && u != t :: s'.threads[u] == s.threads[u]
  {
    hide FreeOp, GiveBack, Outstanding;
  }

  /** Step i of the run is thread who[i]'s. */
  ghost predicate Scheduled(table: seq<SizeClass>, states: seq<State>, who: seq<nat>)
    requires Runs(table)
  {
    && |states| == |who| + 1
    && forall i | 0 <= i < |who| :: StepOf(table, states[i], who[i], states[i + 1])
  }

  ghost predicate StepOf(table: seq<SizeClass>, s: State, t: nat, s': State)
    requires Runs(table)
  {
    exists cpu: nat, arg: nat, os :: ThreadStep(table, s, t, cpu, arg, os, s')
  }

  /** A call ends after at most 132 steps of its own thread, whatever the other threads do meanwhile: a
      thread that stays inside a call takes no more than that. */
  lemma {:induction false} CallEnds(table: seq<SizeClass>, states: seq<State>, who: seq<nat>, t: nat)
    requires Runs(table) && Scheduled(table, states, who) && Inv(table, states[0]) && t < |states[0].threads|
    requires forall i | 0 <= i < |who| :: t < |states[i].threads| && !states[i].threads[t].pc.Idle?
    ensures Inv(table, states[|who|]) && t < |states[|who|].threads|
    ensures Count(who, t) + StepsLeft(states[|who|].threads[t]) <= StepsLeft(states[0].threads[t])
    ensures Count(who, t) <= 132
    decreases |who|
  {
    hide Inv, ThreadStep, Divisible, Count, StepsLeft;
    if who == [] {
      CountNone(t);
    } else {
      var n := |who| - 1;
      CallEnds(table, states[..n + 1], who[..n], t);
      var s, u, s' := states[n], who[n], states[n + 1];
      assert StepOf(table, s, u, s');
      var cpu: nat, arg: nat, os :| ThreadStep(table, s, u, cpu, arg, os, s');
      StepKeeps(table, s, u, cpu, arg, os, s');
      OtherThreads(table, s, u, cpu, arg, os, s');
      if u == t { OwnStep(table, s, u, cpu, arg, os, s'); }
      CountSplit(who, n, t);
      CountOne(u, t);
      assert who[n..] == [u];
    }
    StepsBounded(table, states[0], t);
    StepsBounded(table, states[|who|], t);
  }

  /** A thread's place in the program says which step it takes. */
  lemma WhichStep(table: seq<SizeClass>, s: State, t: nat, cpu: nat, arg: nat, os: Option<nat>, s': State)
    requires Runs(table) && ThreadStep(table, s, t, cpu, arg, os, s')
    ensures match s.threads[t].pc
            case Idle => StartAlloc(table, s, t, arg, s') || StartFree(s, t, arg, s')
            case PopSlab => PopStep(s, t, cpu, s')
            case TakeCache => TakeCacheStep(table, s, t, s')
            case TakeList => TakeListStep(table, s, t, os, s')
            case Pick => PickStep(s, t, s')
            case Publish => PublishStep(table, s, t, cpu, s')
            case Deliver => DeliverStep(s, t, s')
            case FindSpan => FindSpanStep(s, t, s')
            case ReadSize => ReadSizeStep(table, s, t, s')
            case PushSlab => PushStep(table, s, t, cpu, s')
            case PushAgain => PushStep(table, s, t, cpu, s')
            case Drain => DrainStep(table, s, t, cpu, s')
            case FillCache => FillCacheStep(s, t, s')
            case FindHome => FindHomeStep(s, t, s')
            case GiveHome => GiveHomeStep(s, t, s')
  {
    hide LeastClass, Divisible, InSpan, Managed, SizeIndex, FreeOp, GiveBack, Outstanding, AllocateOp, CflOk, Granted,
         SlabRoom, SlabTop;
  }

  // ---- coming back empty ----

  /** The stack of class c on this CPU; empty on a CPU without a slab. */
  function StackOn(s: State, cpu: nat, c: nat): seq<nat> {
    if cpu < |s.slabs| && c < |s.slabs[cpu]| then s.slabs[cpu][c] else []
  }

  /** A locked allocate gives a thread one object more, or nothing if and only if no listed span has an object
      and neither page heap nor OS can help. The thread asks again until its batch is full or the list is spent. */
  lemma TakeListGives(table: seq<SizeClass>, s: State, t: nat, os: Option<nat>, s': State)
    requires Runs(table) && Inv(table, s) && t < |s.threads| && TakeListStep(table, s, t, os, s')
    ensures t < |s'.threads| && s.threads[t].cls < |table| && s.threads[t].cls < |s.cfls| == |s'.cfls|
    ensures var th, th', c := s.threads[t], s'.threads[t], s.threads[t].cls;
            var spent := NoObject(s.cfls[c]) && Starved(s.cfls[c], s.heap, os);
            && th.batch <= th'.batch && |th'.batch| == |th.batch| + (if spent then 0 else 1) <= table[c].batchSize
            && (th'.pc.Pick? <==> spent || |th'.batch| == table[c].batchSize) && (th'.pc.Pick? || th'.pc.TakeList?)
            && (spent ==> Spent(s'.cfls[c], s'.heap, None))
  {
    hide Outside, Capacity, CachesOk, SlabsOk, ThreadsOk, Divisible, Counted, AllocateOp, CflOk, Served, Chosen,
         Starved, HasAvailable, ValidHeap, NoObject;
    Bounds(table, s, t);
    var got :| TakesFromList(table, s, t, got, os, s');
    var d := s.threads[t].cls;
    AllocateBacked(table, s.heap, s'.heap, s.cfls, d, got, os);
    SpentExact(s.cfls[d], s.heap, s'.heap, got, os);
  }

  lemma SpentExact(c: Cfl, h: Heap, h': Heap, got: Option<nat>, os: Option<nat>)
    requires CflOk(c) && Granted(h, h', c, got, os) && (got.Some? ==> Position(c.spans, got.value) == |c.spans|)
    ensures AllocateOp(c, got).1.None? <==> Spent(c, h, os)
    ensures AllocateOp(c, got).1.None? ==> Spent(AllocateOp(c, got).0, h', None)
  {
    GrantedAsks(h, h', c, got, os);
    hide CflOk, AllocateOp, HasAvailable;
    AllocateStarved(c, h, h', got, os);
    if AllocateOp(c, got).1.None? { NothingLeft(c, got); }
  }

  // ---- where a null comes from, over a whole call ----

  /** Thread t popped the slab of some CPU and found no pointer of class c there, or no slab. */
  ghost predicate MetEmptySlab(s: State, t: nat, s': State, c: nat)
    requires t < |s.threads|
  {
    exists cpu: nat :: PopStep(s, t, cpu, s') && StackOn(s, cpu, c) == []
  }

  /** It asked the class's transfer cache, and that was empty. */
  ghost predicate MetEmptyCache(table: seq<SizeClass>, s: State, t: nat, s': State, c: nat)
    requires t < |s.threads|
  {
    TakeCacheStep(table, s, t, s') && c < |s.caches| && s.caches[c] == []
  }

  /** It asked the class's list, which had no object, and neither page heap nor OS could help. */
  ghost predicate MetSpentList(table: seq<SizeClass>, s: State, t: nat, s': State, c: nat)
    requires t < |s.threads|
  {
    exists os :: TakeListStep(table, s, t, os, s') && c < |s.cfls| && Spent(s.cfls[c], s.heap, os)
  }

  /** A refill turns from the cache to the list if and only if the cache is empty; otherwise its batch is what was
      on top of the cache, as many as a batch holds or all there were. */
  lemma TakeCacheExact(table: seq<SizeClass>, s: State, t: nat, s': State)
    requires Runs(table) && Inv(table, s) && t < |s.threads| && TakeCacheStep(table, s, t, s')
    ensures t < |s'.threads| && s.threads[t].cls < |table| && s.threads[t].cls < |s.caches| == |s'.caches|
    ensures var th', c := s'.threads[t], s.threads[t].cls;
            && TakenOff(th'.batch, table[c].batchSize, s.caches[c], s'.caches[c])
            && (th'.pc.TakeList? <==> s.caches[c] == []) && (th'.pc.Pick? <==> s.caches[c] != [])
            && (th'.batch == [] <==> s.caches[c] == [])
  {
    hide Inv, Capacity, WellOrdered;
    Bounds(table, s, t);
  }

  /** What a call has met once it gets past the slab, the cache and the list. */
  lemma OwnHistory(table: seq<SizeClass>, s: State, t: nat, cpu: nat, arg: nat, os: Option<nat>, s': State)
    requires Runs(table) && Inv(table, s) && ThreadStep(table, s, t, cpu, arg, os, s') && !s.threads[t].pc.Idle?
    ensures t < |s'.threads|
    ensures var th, th' := s.threads[t], s'.threads[t];
            && !th'.pc.PopSlab?
            && (th'.pc.TakeCache? ==> th.pc.PopSlab? && th'.cls == th.cls && MetEmptySlab(s, t, s', th.cls))
            && (th'.pc.TakeList? ==>
                  && th'.cls == th.cls
                  && (th.pc.TakeList? || (th.pc.TakeCache? && MetEmptyCache(table, s, t, s', th.cls))))
            && (th'.pc.Pick? && th'.batch == [] ==>
                  th.pc.TakeList? && th'.cls == th.cls && MetSpentList(table, s, t, s', th.cls))
  {
    hide Inv, PopStep, TakeCacheStep, TakeListStep, PickStep, PublishStep, DeliverStep, FindSpanStep, ReadSizeStep,
         PushStep, DrainStep, FillCacheStep, FindHomeStep, GiveHomeStep, Divisible, TakenOff;
    Bounds(table, s, t);
    OtherThreads(table, s, t, cpu, arg, os, s');
    if TakeListStep(table, s, t, os, s') {
      TakeListHistory(table, s, t, os, s');
    } else if TakeCacheStep(table, s, t, s') {
      TakeCacheExact(table, s, t, s');
      AskingSame(table, s, t, cpu, s');
    } else if PopStep(s, t, cpu, s') {
      AskingSame(table, s, t, cpu, s');
    } else if FindSpanStep(s, t, s') || ReadSizeStep(table, s, t, s') || FindHomeStep(s, t, s')
              || GiveHomeStep(s, t, s') {
      PastFinding(table, s, t, s');
    } else {
      PastServing(table, s, t, cpu, s');
    }
  }

  lemma AskingSame(table: seq<SizeClass>, s: State, t: nat, cpu: nat, s': State)
    requires t < |s.threads| && (PopStep(s, t, cpu, s') || TakeCacheStep(table, s, t, s'))
    ensures t < |s'.threads| && s'.threads[t].cls == s.threads[t].cls
    ensures TakeCacheStep(table, s, t, s') ==> s.threads[t].pc.TakeCache?
    ensures PopStep(s, t, cpu, s') ==>
              && s.threads[t].pc.PopSlab? && (s'.threads[t].pc.TakeCache? || s'.threads[t].pc.Deliver?)
              && (s'.threads[t].pc.TakeCache? ==> MetEmptySlab(s, t, s', s.threads[t].cls))
  {
  }

  ghost predicate Asking(th: Thread) {
    th.pc.PopSlab? || th.pc.TakeCache? || th.pc.TakeList? || th.pc.Pick?
  }

  lemma PastServing(table: seq<SizeClass>, s: State, t: nat, cpu: nat, s': State)
    requires t < |s.threads| && Divisible(table)
    requires PickStep(s, t, s') || PublishStep(table, s, t, cpu, s') || DeliverStep(s, t, s')
             || PushStep(table, s, t, cpu, s') || DrainStep(table, s, t, cpu, s') || FillCacheStep(s, t, s')
    ensures t < |s'.threads| && !Asking(s'.threads[t])
  {
    hide Divisible, SlabRoom;
  }

  lemma PastFinding(table: seq<SizeClass>, s: State, t: nat, s': State)
    requires t < |s.threads| && |table| >= 1
    requires FindSpanStep(s, t, s') || ReadSizeStep(table, s, t, s') || FindHomeStep(s, t, s') || GiveHomeStep(s, t, s')
    ensures t < |s'.threads| && !Asking(s'.threads[t])
  {
    hide InSpan, Managed, SizeIndex, FreeOp, GiveBack, Outstanding, Releases;
  }

  lemma TakeListHistory(table: seq<SizeClass>, s: State, t: nat, os: Option<nat>, s': State)
    requires Runs(table) && Inv(table, s) && t < |s.threads| && TakeListStep(table, s, t, os, s')
    ensures t < |s'.threads|
    ensures var th, th' := s.threads[t], s'.threads[t];
            && th.pc.TakeList? && th'.cls == th.cls && (th'.pc.TakeList? || th'.pc.Pick?)
            && (th'.pc.Pick? && th'.batch == [] ==> MetSpentList(table, s, t, s', th.cls))
  {
    hide Inv, AllocateOp, CflOk, Granted, Starved, NoObject;
    Bounds(table, s, t);
    TakeListGives(table, s, t, os, s');
  }

  /** allocate returns null for a request of some class only after a locked allocate that met a list
      without an object, and neither page heap nor OS able to help. */
  lemma NullOnlyStarved(table: seq<SizeClass>, s: State, t: nat, cpu: nat, arg: nat, os: Option<nat>, s': State)
    requires Runs(table) && Inv(table, s) && ThreadStep(table, s, t, cpu, arg, os, s')
    requires t < |s.threads| && t < |s'.threads| && s'.threads[t].pc.Pick? && s'.threads[t].batch == []
    ensures TakeListStep(table, s, t, os, s') && s.threads[t].batch == []
    ensures var c := s.cfls[s.threads[t].cls]; NoObject(c) && Starved(c, s.heap, os)
  {
    hide Inv, ThreadStep, TakeListStep, PopStep, TakeCacheStep, PickStep, PublishStep, DeliverStep, FindSpanStep,
         ReadSizeStep, PushStep, DrainStep, FillCacheStep, FindHomeStep, GiveHomeStep, Divisible, LeastClass;
    WhichStep(table, s, t, cpu, arg, os, s');
    if !s.threads[t].pc.Idle? {
      OwnHistory(table, s, t, cpu, arg, os, s');
      TakeListGives(table, s, t, os, s');
    }
  }

  /** Whatever the other threads do in between, a call about to return null met, in this order: a CPU with no
      pointer of the class on its slab, an empty transfer cache of the class, and a list of the class that had no
      object left while neither page heap nor OS could help. */
  lemma {:induction false} NullHistory(table: seq<SizeClass>, states: seq<State>, who: seq<nat>, t: nat)
    returns (i: nat, j: nat, k: nat)
    requires Runs(table) && Scheduled(table, states, who) && Inv(table, states[0]) && t < |states[0].threads|
    requires states[0].threads[t].pc.PopSlab?
    requires forall l | 0 <= l < |who| :: t < |states[l].threads| && !states[l].threads[t].pc.Idle?
    ensures Inv(table, states[|who|]) && t < |states[|who|].threads|
    ensures var th, c := states[|who|].threads[t], states[0].threads[t].cls;
            var empty := th.pc.Pick? && th.batch == [];
            && (th.pc.PopSlab? || th.pc.TakeCache? || th.pc.TakeList? || empty ==> th.cls == c)
            && (th.pc.TakeCache? || th.pc.TakeList? || empty ==>
                  i < |who| && who[i] == t && MetEmptySlab(states[i], t, states[i + 1], c))
            && (th.pc.TakeList? || empty ==>
                  i < j < |who| && who[j] == t && MetEmptyCache(table, states[j], t, states[j + 1], c))
            && (empty ==> j < k < |who| && who[k] == t && MetSpentList(table, states[k], t, states[k + 1], c))
    decreases |who|
  {
    hide Inv, ThreadStep, Divisible, MetEmptySlab, MetEmptyCache, MetSpentList;
    if who == [] {
      i, j, k := 0, 0, 0;
    } else {
      var n := |who| - 1;
      i, j, k := NullHistory(table, states[..n + 1], who[..n], t);
      var s, u, s' := states[n], who[n], states[n + 1];
      assert StepOf(table, s, u, s');
      var cpu: nat, arg: nat, os :| ThreadStep(table, s, u, cpu, arg, os, s');
      StepKeeps(table, s, u, cpu, arg, os, s');
      OtherThreads(table, s, u, cpu, arg, os, s');
      if u == t {
        OwnHistory(table, s, u, cpu, arg, os, s');
        var th, th' := s.threads[t], s'.threads[t];
        if th'.pc.TakeCache? { i := n; }
        if th'.pc.TakeList? && !th.pc.TakeList? { j := n; }
        if th'.pc.Pick? { k := n; }
      }
    }
  }
}
