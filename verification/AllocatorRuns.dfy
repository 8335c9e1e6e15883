/** Every run of the allocator: each step keeps every object in exactly one place, and no span
    leaves while one of its objects is outside its list. */
module AllocatorRuns {
  import opened Arithmetic
  import opened Counting
  import opened Widths
  import opened PageHeapSpec
  import opened PageHeapLaws
  import opened PackedLists
  import opened CflSpec
  import opened CflLaws
  import opened CflMemory
  import opened SizeClasses
  import opened SlabLayout
  import opened AllocatorSteps
  import opened AllocatorLaws

  // ---- invariant ----

  ghost predicate AllLent(c: Cfl, ps: seq<nat>) {
    forall i | 0 <= i < |ps| :: Lent(c, ps[i])
  }

  ghost predicate Shape(table: seq<SizeClass>, s: State) {
    |s.caches| == |table| && forall cpu | 0 <= cpu < |s.slabs| :: |s.slabs[cpu]| == |table|
  }

  ghost predicate CacheOk(cfls: seq<Cfl>, s: State, c: nat)
    requires c < |s.caches|
  {
    c < |cfls| && AllLent(cfls[c], s.caches[c]) && |s.caches[c]| <= TRANSFER_CACHE_CAPACITY
  }

  ghost predicate SlabOk(table: seq<SizeClass>, cfls: seq<Cfl>, s: State, cpu: nat, c: nat)
    requires Divisible(table) && cpu < |s.slabs| && c < |s.slabs[cpu]|
  {
    c < |cfls| && c < |table| && AllLent(cfls[c], s.slabs[cpu][c]) && |s.slabs[cpu][c]| <= Capacity(table, c)
  }

  /** Every pointer the thread carries was lent by the list of its class. */
  ghost predicate Carries(cfls: seq<Cfl>, th: Thread) {
    && 1 <= th.cls < |cfls| && AllLent(cfls[th.cls], th.batch) && |th.batch| <= MAX_BATCH_SIZE
    && (th.hand.Some? ==> Lent(cfls[th.cls], th.hand.value))
  }

  /** A list lends the pointer from the span the thread looked up. */
  ghost predicate Found(cfls: seq<Cfl>, a: nat, p: nat) {
    exists c: nat :: c < |cfls| && Lends(cfls[c], a, p)
  }

  ghost predicate ThreadOk(table: seq<SizeClass>, cfls: seq<Cfl>, th: Thread)
    requires |table| >= 2
  {
    && (!th.pc.Idle? && th.op.Alloc? ==> LeastClass(table, th.want, th.cls))
    && match th.pc
       case Idle => th.hand.None? && th.batch == []
       case FindSpan => th.op.Free? && th.hand.Some? && th.batch == []
       case ReadSize => th.op.Free? && th.hand.Some? && th.batch == [] && Found(cfls, th.span, th.hand.value)
       case PopSlab => Carries(cfls, th) && th.op.Alloc? && th.hand.None? && th.batch == []
       case TakeCache => Carries(cfls, th) && th.op.Alloc? && th.hand.None? && th.batch == []
       case TakeList => Carries(cfls, th) && th.op.Alloc? && th.hand.None?
                        && th.cls < |table| && |th.batch| < table[th.cls].batchSize
       case Pick => Carries(cfls, th) && th.op.Alloc? && th.hand.None?
       case Publish => Carries(cfls, th) && th.op.Alloc? && th.hand.Some?
       case Deliver => Carries(cfls, th) && th.op.Alloc? && th.hand.Some? && th.batch == []
       case PushSlab => Carries(cfls, th) && th.op.Free? && th.hand.Some? && th.batch == []
       case PushAgain => Carries(cfls, th) && th.op.Free? && th.hand.Some? && th.batch == []
       case Drain => Carries(cfls, th) && th.op.Free? && th.hand.Some?
       case FillCache => Carries(cfls, th) && th.batch != [] && th.hand.Some?
       case FindHome => Carries(cfls, th) && th.batch != [] && (th.op.Alloc? ==> th.hand.Some?)
       case GiveHome => Carries(cfls, th) && th.batch != [] && (th.op.Alloc? ==> th.hand.Some?)
                        && Lends(cfls[th.cls], th.span, th.batch[0])
  }

  ghost predicate CachesOk(cfls: seq<Cfl>, s: State) {
    forall c: nat | c < |s.caches| :: CacheOk(cfls, s, c)
  }

  ghost predicate SlabsOk(table: seq<SizeClass>, cfls: seq<Cfl>, s: State)
    requires Divisible(table)
  {
    forall cpu: nat, c: nat | cpu < |s.slabs| && c < |s.slabs[cpu]| :: SlabOk(table, cfls, s, cpu, c)
  }

  ghost predicate ThreadsOk(table: seq<SizeClass>, cfls: seq<Cfl>, s: State)
    requires |table| >= 2
  {
    forall t: nat | t < |s.threads| :: ThreadOk(table, cfls, s.threads[t])
  }

  /** Each lent object is outside exactly once, and nothing else is. */
  ghost predicate Counted(s: State) {
    forall p: nat :: Outside(s, p) == if LentAny(s.cfls, p) then 1 else 0
  }

  ghost predicate Inv(table: seq<SizeClass>, s: State)
    requires Runs(table)
  {
    && !s.fault && Backed(table, s.heap, s.cfls) && Counted(s)
    && Shape(table, s) && CachesOk(s.cfls, s) && SlabsOk(table, s.cfls, s) && ThreadsOk(table, s.cfls, s)
  }

  // ---- what stays lent ----

  /** Whatever is still outside in s' is still lent from the same span. */
  ghost predicate Kept(cfls: seq<Cfl>, s': State) {
    |cfls| == |s'.cfls| &&
    forall c: nat, a: nat, p: nat | c < |cfls| && Lends(cfls[c], a, p) && Outside(s', p) > 0 :: Lends(s'.cfls[c], a, p)
  }

  lemma AllLentKept(cfls: seq<Cfl>, s': State, c: nat, ps: seq<nat>)
    requires Kept(cfls, s') && c < |cfls| && AllLent(cfls[c], ps)
    requires forall i | 0 <= i < |ps| :: Outside(s', ps[i]) > 0
    ensures AllLent(s'.cfls[c], ps)
  {
    forall i | 0 <= i < |ps|
      ensures Lent(s'.cfls[c], ps[i])
    {
      var a: nat :| Lends(cfls[c], a, ps[i]);
      assert Lends(s'.cfls[c], a, ps[i]);
    }
  }

  lemma CachesKept(cfls: seq<Cfl>, s': State)
    requires Kept(cfls, s') && CachesOk(cfls, s')
    ensures CachesOk(s'.cfls, s')
  {
    hide Outside, Lends, Lent, Count;
    forall c: nat | c < |s'.caches|
      ensures CacheOk(s'.cfls, s', c)
    {
      assert CacheOk(cfls, s', c);
      var slots := s'.caches[c];
      forall i: nat | i < |slots|
        ensures Outside(s', slots[i]) > 0
      {
        CountIn(slots, i);
        CacheDelta(s', c, slots, slots[i]);
      }
      AllLentKept(cfls, s', c, slots);
    }
  }

  lemma SlabsKept(table: seq<SizeClass>, cfls: seq<Cfl>, s': State)
    requires Divisible(table) && Kept(cfls, s') && SlabsOk(table, cfls, s')
    ensures SlabsOk(table, s'.cfls, s')
  {
    hide Outside, Lends, Lent, Count, Capacity, Divisible;
    forall cpu: nat, c: nat | cpu < |s'.slabs| && c < |s'.slabs[cpu]|
      ensures SlabOk(table, s'.cfls, s', cpu, c)
    {
      assert SlabOk(table, cfls, s', cpu, c);
      var stack := s'.slabs[cpu][c];
      forall i: nat | i < |stack|
        ensures Outside(s', stack[i]) > 0
      {
        CountIn(stack, i);
        SlabDelta(s', cpu, c, stack, stack[i]);
      }
      AllLentKept(cfls, s', c, stack);
    }
  }

  lemma HeldOutside(s: State, t: nat)
    requires t < |s.threads|
    ensures s.threads[t].hand.Some? ==> Outside(s, s.threads[t].hand.value) > 0
    ensures forall i | 0 <= i < |s.threads[t].batch| :: Outside(s, s.threads[t].batch[i]) > 0
  {
    hide Outside, Count;
    var th := s.threads[t];
    if th.hand.Some? { ThreadDelta(s, t, th, th.hand.value); }
    forall i: nat | i < |th.batch|
      ensures Outside(s, th.batch[i]) > 0
    {
      CountIn(th.batch, i);
      ThreadDelta(s, t, th, th.batch[i]);
    }
  }

  lemma ThreadKept(table: seq<SizeClass>, cfls: seq<Cfl>, s': State, t: nat)
    requires |table| >= 2 && Kept(cfls, s') && t < |s'.threads| && ThreadOk(table, cfls, s'.threads[t])
    ensures ThreadOk(table, s'.cfls, s'.threads[t])
  {
    hide Outside, Lends, LeastClass, AllLent;
    var th := s'.threads[t];
    HeldOutside(s', t);
    if Carries(cfls, th) {
      AllLentKept(cfls, s', th.cls, th.batch);
    }
  }

  // ---- steps that only move pointers ----

  lemma Moved(table: seq<SizeClass>, s: State, s': State, t: nat)
    requires Runs(table) && Inv(table, s) && t < |s.threads|
    requires s'.heap == s.heap && s'.cfls == s.cfls && s'.fault == s.fault
    requires |s'.threads| == |s.threads| && s'.threads == s.threads[t := s'.threads[t]]
    requires ThreadOk(table, s.cfls, s'.threads[t])
    requires Shape(table, s') && CachesOk(s.cfls, s') && SlabsOk(table, s.cfls, s')
    requires forall p: nat :: Outside(s', p) == Outside(s, p)
    ensures Inv(table, s')
  {
    hide Outside, Backed, LentAny, ThreadOk, Shape, CachesOk, SlabsOk;
    forall u: nat | u < |s'.threads|
      ensures ThreadOk(table, s.cfls, s'.threads[u])
    {
      assert ThreadOk(table, s.cfls, s.threads[u]);
    }
  }

  /** Only the thread's place in the program changed. */
  lemma Stepped(table: seq<SizeClass>, s: State, t: nat, th: Thread)
    requires Runs(table) && Inv(table, s) && t < |s.threads| && ThreadOk(table, s.cfls, th)
    requires forall p: nat :: Held(th, p) == Held(s.threads[t], p)
    ensures Inv(table, Update(s, t, th))
  {
    hide Outside, Held, Backed, ThreadOk;
    forall p: nat { ThreadDelta(s, t, th, p); }
    SameCaches(s, Update(s, t, th));
    SameSlabs(table, s, Update(s, t, th));
    Moved(table, s, Update(s, t, th), t);
  }

  lemma Popped(table: seq<SizeClass>, s: State, t: nat, cpu: nat, c: nat, th: Thread)
    requires Runs(table) && Inv(table, s) && t < |s.threads| && ThreadOk(table, s.cfls, th)
    requires SlabTop(s, cpu, c).Some?
    requires forall p: nat :: Held(th, p) == Held(s.threads[t], p) + if SlabTop(s, cpu, c).value == p then 1 else 0
    ensures Inv(table, Update(AfterPop(s, cpu, c), t, th))
  {
    hide Outside, Held, Backed, ThreadOk, Lent, Capacity, Divisible, WellOrdered;
    var s1 := AfterPop(s, cpu, c);
    var s' := Update(s1, t, th);
    forall p: nat
      ensures Outside(s', p) == Outside(s, p)
    {
      PopDelta(s, cpu, c, p);
      ThreadDelta(s1, t, th, p);
    }
    forall cpu1: nat, c1: nat | cpu1 < |s'.slabs| && c1 < |s'.slabs[cpu1]|
      ensures SlabOk(table, s.cfls, s', cpu1, c1)
    {
      assert SlabOk(table, s.cfls, s, cpu1, c1);
    }
    SameCaches(s, s');
    Moved(table, s, s', t);
  }

  lemma SameCaches(s: State, s': State)
    requires CachesOk(s.cfls, s) && s'.caches == s.caches
    ensures CachesOk(s.cfls, s')
  {
    forall c: nat | c < |s'.caches|
      ensures CacheOk(s.cfls, s', c)
    {
      assert CacheOk(s.cfls, s, c);
    }
  }

  lemma SameSlabs(table: seq<SizeClass>, s: State, s': State)
    requires Divisible(table) && SlabsOk(table, s.cfls, s) && s'.slabs == s.slabs
    ensures SlabsOk(table, s.cfls, s')
  {
    hide Capacity;
    forall cpu: nat, c: nat | cpu < |s'.slabs| && c < |s'.slabs[cpu]|
      ensures SlabOk(table, s.cfls, s', cpu, c)
    {
      assert SlabOk(table, s.cfls, s, cpu, c);
    }
  }

  lemma TopLent(table: seq<SizeClass>, s: State, cpu: nat, c: nat)
    requires Runs(table) && Inv(table, s) && SlabTop(s, cpu, c).Some?
    ensures c < |s.cfls| && Lent(s.cfls[c], SlabTop(s, cpu, c).value)
  {
    hide Outside, Backed, Lent, Capacity, Divisible;
    assert SlabOk(table, s.cfls, s, cpu, c);
  }

  lemma Pushed(table: seq<SizeClass>, s: State, t: nat, cpu: nat, c: nat, q: nat, th: Thread)
    requires Runs(table) && Inv(table, s) && t < |s.threads| && ThreadOk(table, s.cfls, th)
    requires SlabRoom(table, s, cpu, c) && c < |s.cfls| && Lent(s.cfls[c], q)
    requires forall p: nat :: Held(s.threads[t], p) == Held(th, p) + if q == p then 1 else 0
    ensures Inv(table, Update(AfterPush(s, cpu, c, q), t, th))
  {
    hide Outside, Held, Backed, ThreadOk, Lent, Capacity, Divisible, WellOrdered;
    var s1 := AfterPush(s, cpu, c, q);
    var s' := Update(s1, t, th);
    forall p: nat
      ensures Outside(s', p) == Outside(s, p)
    {
      PushDelta(s, cpu, c, q, p);
      ThreadDelta(s1, t, th, p);
    }
    forall cpu1: nat, c1: nat | cpu1 < |s'.slabs| && c1 < |s'.slabs[cpu1]|
      ensures SlabOk(table, s.cfls, s', cpu1, c1)
    {
      assert SlabOk(table, s.cfls, s, cpu1, c1);
    }
    SameCaches(s, s');
    Moved(table, s, s', t);
  }

  lemma Cached(table: seq<SizeClass>, s: State, t: nat, c: nat, slots: seq<nat>, th: Thread)
    requires Runs(table) && Inv(table, s) && t < |s.threads| && ThreadOk(table, s.cfls, th)
    requires c < |s.caches| && c < |s.cfls| && AllLent(s.cfls[c], slots) && |slots| <= TRANSFER_CACHE_CAPACITY
    requires forall p: nat :: Held(th, p) + Count(slots, p) == Held(s.threads[t], p) + Count(s.caches[c], p)
    ensures Inv(table, Update(s, t, th).(caches := s.caches[c := slots]))
  {
    hide Outside, Held, Count, Backed, ThreadOk, Lent, Capacity, Divisible, WellOrdered;
    var s1 := Update(s, t, th);
    var s' := s1.(caches := s.caches[c := slots]);
    forall p: nat
      ensures Outside(s', p) == Outside(s, p)
    {
      ThreadDelta(s, t, th, p);
      CacheDelta(s1, c, slots, p);
    }
    forall c1: nat | c1 < |s'.caches|
      ensures CacheOk(s.cfls, s', c1)
    {
      assert CacheOk(s.cfls, s, c1);
    }
    SameSlabs(table, s, s');
    Moved(table, s, s', t);
  }

  lemma HeldNone(th: Thread, p: nat)
    requires th.hand.None? && th.batch == []
    ensures Held(th, p) == 0
  {
  }

  lemma StartAllocKeeps(table: seq<SizeClass>, s: State, t: nat, n: nat, s': State)
    requires Runs(table) && Inv(table, s) && t < |s.threads| && StartAlloc(table, s, t, n, s')
    ensures Inv(table, s')
  {
    hide Outside, Backed, Lent, Held, Capacity, Divisible, LeastClass;
    assert ThreadOk(table, s.cfls, s.threads[t]);
    if s' != s {
      var c: nat :| LeastClass(table, n, c) && c != 0 && s' == Update(s, t, Thread(Alloc, PopSlab, c, None, [], 0, n));
      LeastInTable(table, n, c);
      SameLength(table, s);
      var th := Thread(Alloc, PopSlab, c, None, [], 0, n);
      forall p: nat
        ensures Held(th, p) == Held(s.threads[t], p)
      {
        HeldNone(th, p);
        HeldNone(s.threads[t], p);
      }
      Stepped(table, s, t, th);
    }
  }

  lemma LeastInTable(table: seq<SizeClass>, n: nat, c: nat)
    requires |table| >= 2 && LeastClass(table, n, c)
    ensures c < |table|
  {
  }

  lemma SameLength(table: seq<SizeClass>, s: State)
    requires Runs(table) && Inv(table, s)
    ensures |s.cfls| == |table| == |s.caches|
  {
  }

  lemma UserDelta(s: State, user: multiset<nat>, p: nat)
    ensures Outside(s.(user := user), p) + s.user[p] == Outside(s, p) + user[p]
  {
    hide Sum;
  }

  lemma StartFreeKeeps(table: seq<SizeClass>, s: State, t: nat, p: nat, s': State)
    requires Runs(table) && Inv(table, s) && t < |s.threads| && StartFree(s, t, p, s')
    ensures Inv(table, s')
  {
    hide Outside, Backed, Lent, Capacity, Divisible, Count;
    assert ThreadOk(table, s.cfls, s.threads[t]);
    var th := Thread(Free, FindSpan, 0, Some(p), [], 0, 0);
    forall q: nat
      ensures Outside(s', q) == Outside(s, q)
    {
      HeldNone(s.threads[t], q);
      CountNone(q);
      ThreadDelta(s, t, th, q);
      UserDelta(Update(s, t, th), s.user - multiset{p}, q);
    }
    SameCaches(s, s');
    SameSlabs(table, s, s');
    Moved(table, s, s', t);
  }

  lemma PopKeeps(table: seq<SizeClass>, s: State, t: nat, cpu: nat, s': State)
    requires Runs(table) && Inv(table, s) && t < |s.threads| && PopStep(s, t, cpu, s')
    ensures Inv(table, s')
  {
    hide Outside, Backed, Lent, Capacity, Divisible, Count;
    var th := s.threads[t];
    assert ThreadOk(table, s.cfls, th);
    var top := SlabTop(s, cpu, th.cls);
    if top.Some? {
      TopLent(table, s, cpu, th.cls);
      Popped(table, s, t, cpu, th.cls, th.(hand := top, pc := Deliver));
    } else {
      Stepped(table, s, t, th.(pc := TakeCache));
    }
  }

  lemma TakeCacheKeeps(table: seq<SizeClass>, s: State, t: nat, s': State)
    requires Runs(table) && Inv(table, s) && t < |s.threads| && TakeCacheStep(table, s, t, s')
    ensures Inv(table, s')
  {
    hide Outside, Backed, Lent, Capacity, Count;
    var th := s.threads[t];
    assert ThreadOk(table, s.cfls, th);
    SameLength(table, s);
    var slots := s.caches[th.cls];
    var n := if table[th.cls].batchSize < |slots| then table[th.cls].batchSize as nat else |slots|;
    var th' := th.(batch := slots[|slots| - n..], pc := if n == 0 then TakeList else Pick);
    assert CacheOk(s.cfls, s, th.cls);
    forall p: nat
      ensures Held(th', p) + Count(slots[..|slots| - n], p) == Held(th, p) + Count(slots, p)
    {
      CountSplit(slots, |slots| - n, p);
      CountNone(p);
    }
    Cached(table, s, t, th.cls, slots[..|slots| - n], th');
  }

  lemma PickKeeps(table: seq<SizeClass>, s: State, t: nat, s': State)
    requires Runs(table) && Inv(table, s) && t < |s.threads| && PickStep(s, t, s')
    ensures Inv(table, s')
  {
    hide Outside, Backed, Lent, Capacity, Divisible, Count;
    var th := s.threads[t];
    assert ThreadOk(table, s.cfls, th);
    var n := |th.batch|;
    if n == 0 {
      Stepped(table, s, t, th.(pc := Idle));
    } else {
      var th' := th.(hand := Some(th.batch[n - 1]), batch := th.batch[..n - 1], pc := Publish);
      forall p: nat
        ensures Held(th', p) == Held(th, p)
      {
        CountSplit(th.batch, n - 1, p);
        CountOne(th.batch[n - 1], p);
        assert th.batch[n - 1..] == [th.batch[n - 1]];
      }
      Stepped(table, s, t, th');
    }
  }

  lemma PublishKeeps(table: seq<SizeClass>, s: State, t: nat, cpu: nat, s': State)
    requires Runs(table) && Inv(table, s) && t < |s.threads| && PublishStep(table, s, t, cpu, s')
    ensures Inv(table, s')
  {
    hide Outside, Backed, Lent, Capacity, Divisible, Count;
    var th := s.threads[t];
    assert ThreadOk(table, s.cfls, th);
    var n := |th.batch|;
    if n > 0 && SlabRoom(table, s, cpu, th.cls) {
      var th' := th.(batch := th.batch[..n - 1]);
      forall p: nat
        ensures Held(th, p) == Held(th', p) + if th.batch[n - 1] == p then 1 else 0
      {
        CountSplit(th.batch, n - 1, p);
        CountOne(th.batch[n - 1], p);
        assert th.batch[n - 1..] == [th.batch[n - 1]];
      }
      Pushed(table, s, t, cpu, th.cls, th.batch[n - 1], th');
    } else {
      Stepped(table, s, t, th.(pc := if n == 0 then Deliver else FillCache));
    }
  }

  lemma DeliverKeeps(table: seq<SizeClass>, s: State, t: nat, s': State)
    requires Runs(table) && Inv(table, s) && t < |s.threads| && DeliverStep(s, t, s')
    ensures Inv(table, s')
  {
    hide Outside, Backed, Lent, Capacity, Divisible, Count;
    var th := s.threads[t];
    assert ThreadOk(table, s.cfls, th);
    var th' := th.(hand := None, pc := Idle);
    forall p: nat
      ensures Outside(s', p) == Outside(s, p)
    {
      ThreadDelta(s, t, th', p);
      UserDelta(Update(s, t, th'), s.user + multiset{th.hand.value}, p);
    }
    SameCaches(s, s');
    SameSlabs(table, s, s');
    Moved(table, s, s', t);
  }

  // ---- lookups outside the locks ----

  /** Looking a lent pointer up finds the very span it was lent from. */
  lemma LookupExact(table: seq<SizeClass>, h: Heap, cfls: seq<Cfl>, c: nat, p: nat)
    requires Runs(table) && Backed(table, h, cfls) && c < |cfls| && Lent(cfls[c], p)
    ensures Managed(h, p / PAGE_SIZE)
    ensures forall a: nat | InSpan(h, a, p / PAGE_SIZE) :: Lends(cfls[c], a, p)
  {
    hide Lends, WellOrdered, Divisible, CflOk, SpansInUse;
    AllIndexed(table);
    var b: nat :| Lends(cfls[c], b, p);
    LendsPlace(table[c], cfls[c], h, b, p);
  }

  lemma FindSpanKeeps(table: seq<SizeClass>, s: State, t: nat, s': State)
    requires Runs(table) && Inv(table, s) && t < |s.threads| && FindSpanStep(s, t, s')
    ensures Inv(table, s')
  {
    hide Outside, Backed, Lent, Capacity, Divisible, Count, Managed, InSpan;
    var th := s.threads[t];
    assert ThreadOk(table, s.cfls, th);
    HeldOutside(s, t);
    var p := th.hand.value;
    assert LentAny(s.cfls, p);
    var c: nat :| c < |s.cfls| && Lent(s.cfls[c], p);
    LookupExact(table, s.heap, s.cfls, c, p);
    var a: nat :| InSpan(s.heap, a, p / PAGE_SIZE) && s' == Update(s, t, th.(span := a, pc := ReadSize));
    assert Found(s.cfls, a, p);
    Stepped(table, s, t, th.(span := a, pc := ReadSize));
  }

  /** The size read off the span leads to the class that lent the pointer. */
  lemma RoutesHome(table: seq<SizeClass>, h: Heap, cfls: seq<Cfl>, c: nat, a: nat, p: nat, idx: nat)
    requires Runs(table) && Backed(table, h, cfls) && c < |cfls| && Lends(cfls[c], a, p)
    requires a in h && SizeIndex(table, h[a].size, idx)
    ensures idx == c && c >= 1
  {
    hide Lends, Divisible, CflOk, SpansInUse;
    AllIndexed(table);
    LendsPlace(table[c], cfls[c], h, a, p);
    SizeIndexExact(table, c, idx);
  }

  lemma FoundInHeap(table: seq<SizeClass>, h: Heap, cfls: seq<Cfl>, a: nat, p: nat)
    requires Runs(table) && Backed(table, h, cfls) && Found(cfls, a, p)
    ensures InUse(h, a) && InSpan(h, a, p / PAGE_SIZE)
  {
    hide Lends, Divisible, CflOk, SpansInUse, WellOrdered;
    AllIndexed(table);
    var c: nat :| c < |cfls| && Lends(cfls[c], a, p);
    LendsPlace(table[c], cfls[c], h, a, p);
  }

  lemma ReadSizeKeeps(table: seq<SizeClass>, s: State, t: nat, s': State)
    requires Runs(table) && Inv(table, s) && t < |s.threads| && ReadSizeStep(table, s, t, s')
    ensures Inv(table, s')
  {
    hide Outside, Backed, Lends, Capacity, Divisible, Count, InSpan, SizeIndex;
    var th := s.threads[t];
    assert ThreadOk(table, s.cfls, th);
    FoundInHeap(table, s.heap, s.cfls, th.span, th.hand.value);
    var c: nat :| c < |s.cfls| && Lends(s.cfls[c], th.span, th.hand.value);
    var idx: nat :| SizeIndex(table, s.heap[th.span].size, idx)
      && s' == if idx == 0 then s.(fault := true) else Update(s, t, th.(cls := idx, pc := PushSlab));
    RoutesHome(table, s.heap, s.cfls, c, th.span, th.hand.value, idx);
    Stepped(table, s, t, th.(cls := idx, pc := PushSlab));
  }

  lemma PushKeeps(table: seq<SizeClass>, s: State, t: nat, cpu: nat, s': State)
    requires Runs(table) && Inv(table, s) && t < |s.threads| && PushStep(table, s, t, cpu, s')
    ensures Inv(table, s')
  {
    hide Outside, Backed, Lent, Capacity, Divisible, Count;
    var th := s.threads[t];
    assert ThreadOk(table, s.cfls, th);
    var p := th.hand.value;
    if SlabRoom(table, s, cpu, th.cls) {
      Pushed(table, s, t, cpu, th.cls, p, th.(hand := None, pc := Idle, batch := []));
    } else if th.pc.PushSlab? {
      Stepped(table, s, t, th.(pc := Drain));
    } else {
      var th' := th.(hand := None, batch := [p], pc := FindHome);
      forall q: nat
        ensures Held(th', q) == Held(th, q)
      {
        CountOne(p, q);
        CountNone(q);
      }
      Stepped(table, s, t, th');
    }
  }

  lemma DrainKeeps(table: seq<SizeClass>, s: State, t: nat, cpu: nat, s': State)
    requires Runs(table) && Inv(table, s) && t < |s.threads| && DrainStep(table, s, t, cpu, s')
    ensures Inv(table, s')
  {
    hide Outside, Backed, Lent, Capacity, Divisible, Count;
    var th := s.threads[t];
    assert ThreadOk(table, s.cfls, th);
    var top := SlabTop(s, cpu, th.cls);
    if |th.batch| < table[th.cls].batchSize && top.Some? {
      TopLent(table, s, cpu, th.cls);
      var th' := th.(batch := th.batch + [top.value]);
      forall p: nat
        ensures Held(th', p) == Held(th, p) + if top.value == p then 1 else 0
      {
        CountJoin(th.batch, [top.value], p);
        CountOne(top.value, p);
      }
      Popped(table, s, t, cpu, th.cls, th');
    } else {
      Stepped(table, s, t, th.(pc := if th.batch == [] then PushAgain else FillCache));
    }
  }

  lemma FillCacheKeeps(table: seq<SizeClass>, s: State, t: nat, s': State)
    requires Runs(table) && Inv(table, s) && t < |s.threads| && FillCacheStep(s, t, s')
    ensures Inv(table, s')
  {
    hide Outside, Backed, Lent, Capacity, Divisible, Count;
    var th := s.threads[t];
    assert ThreadOk(table, s.cfls, th);
    SameLength(table, s);
    var slots := s.caches[th.cls];
    assert CacheOk(s.cfls, s, th.cls);
    var space := TRANSFER_CACHE_CAPACITY - |slots|;
    var n := if |th.batch| < space then |th.batch| else space;
    var th' := if n == |th.batch| then Released(th) else th.(batch := th.batch[n..], pc := FindHome);
    forall p: nat
      ensures Held(th', p) + Count(slots + th.batch[..n], p) == Held(th, p) + Count(slots, p)
    {
      CountSplit(th.batch, n, p);
      CountJoin(slots, th.batch[..n], p);
      CountNone(p);
      assert n == |th.batch| ==> th.batch[n..] == [];
    }
    Cached(table, s, t, th.cls, slots + th.batch[..n], th');
  }

  lemma FindHomeKeeps(table: seq<SizeClass>, s: State, t: nat, s': State)
    requires Runs(table) && Inv(table, s) && t < |s.threads| && FindHomeStep(s, t, s')
    ensures Inv(table, s')
  {
    hide Outside, Backed, Lent, Capacity, Divisible, Count, Managed, InSpan;
    var th := s.threads[t];
    assert ThreadOk(table, s.cfls, th);
    var p := th.batch[0];
    LookupExact(table, s.heap, s.cfls, th.cls, p);
    var a: nat :| InSpan(s.heap, a, p / PAGE_SIZE) && s' == Update(s, t, th.(span := a, pc := GiveHome));
    Stepped(table, s, t, th.(span := a, pc := GiveHome));
  }

  // ---- steps of the central free lists ----

  lemma AllKept(table: seq<SizeClass>, s: State, s': State, t: nat)
    requires Runs(table) && Inv(table, s) && t < |s.threads| && Kept(s.cfls, s')
    requires s'.caches == s.caches && s'.slabs == s.slabs
    requires |s'.threads| == |s.threads| && s'.threads == s.threads[t := s'.threads[t]]
    requires ThreadOk(table, s'.cfls, s'.threads[t])
    ensures Shape(table, s') && CachesOk(s'.cfls, s') && SlabsOk(table, s'.cfls, s') && ThreadsOk(table, s'.cfls, s')
  {
    hide Outside, Backed, ThreadOk, Kept, Capacity, LentAny, Lent;
    var s1 := s'.(cfls := s.cfls);
    SameCaches(s, s1);
    SameSlabs(table, s, s1);
    SameView(table, s.cfls, s1, s');
    CachesKept(s.cfls, s');
    SlabsKept(table, s.cfls, s');
    forall u: nat | u < |s'.threads| && u != t
      ensures ThreadOk(table, s'.cfls, s'.threads[u])
    {
      assert ThreadOk(table, s.cfls, s.threads[u]);
      ThreadKept(table, s.cfls, s', u);
    }
  }

  lemma SameView(table: seq<SizeClass>, cfls: seq<Cfl>, s: State, s': State)
    requires Divisible(table) && CachesOk(cfls, s) && SlabsOk(table, cfls, s)
    requires s'.caches == s.caches && s'.slabs == s.slabs
    ensures CachesOk(cfls, s') && SlabsOk(table, cfls, s')
  {
    hide Capacity;
    forall c: nat | c < |s'.caches|
      ensures CacheOk(cfls, s', c)
    {
      assert CacheOk(cfls, s, c);
    }
    forall cpu: nat, c: nat | cpu < |s'.slabs| && c < |s'.slabs[cpu]|
      ensures SlabOk(table, cfls, s', cpu, c)
    {
      assert SlabOk(table, cfls, s, cpu, c);
    }
  }

  /** What one more lent object does to the pointers lent. */
  ghost predicate LendsOneMore(cfls: seq<Cfl>, cfls': seq<Cfl>, d: nat, p: nat) {
    && |cfls| == |cfls'| && d < |cfls|
    && Lent(cfls'[d], p) && !LentAny(cfls, p)
    && (forall c: nat, a: nat, q: nat | c < |cfls| && Lends(cfls[c], a, q) :: Lends(cfls'[c], a, q))
    && forall q: nat :: LentAny(cfls', q) <==> LentAny(cfls, q) || q == p
  }

  lemma NotLentYet(c: Cfl, c': Cfl, o: Object)
    requires CflOk(c') && c'.size == c.size && o !in Outs(c) && o in Outs(c')
    ensures !Lends(c, o.start, Address(o, c.size))
  {
    if i: nat :| Out(c, Object(o.start, i)) && Address(Object(o.start, i), c.size) == Address(o, c.size) {
      IndicesApart(i, o.idx, o.start * PAGE_SIZE, c.size);
      assert Object(o.start, i) in Outs(c);
    }
  }

  lemma AllocateLends(table: seq<SizeClass>, h: Heap, h': Heap, cfls: seq<Cfl>, d: nat, got: Option<nat>,
                      os: Option<nat>)
    requires Runs(table) && Backed(table, h, cfls) && d < |cfls| && Granted(h, h', cfls[d], got, os)
    requires CflOk(cfls[d]) && AllocateOp(cfls[d], got).1.Some?
    ensures var (c', o) := AllocateOp(cfls[d], got);
            LendsOneMore(cfls, cfls[d := c'], d, Address(o.value, cfls[d].size))
  {
    AllocateBacked(table, h, h', cfls, d, got, os);
    AllocateOk(cfls[d], got);
    AllocateListed(cfls[d], got, 0);
    NotLentYet(cfls[d], AllocateOp(cfls[d], got).0, AllocateOp(cfls[d], got).1.value);
    hide AllocateOp, CflOk, Granted, Backed, Lends, WellOrdered, Divisible, LendsOneMore;
    var c, c', o := cfls[d], AllocateOp(cfls[d], got).0, AllocateOp(cfls[d], got).1.value;
    LendsMore(c, c', o);
    OneMore(cfls, d, c', o.start, Address(o, c.size));
    NewlyLent(table, h', cfls, d, c', o.start, Address(o, c.size));
  }

  lemma NewlyLent(table: seq<SizeClass>, h: Heap, cfls: seq<Cfl>, d: nat, c': Cfl, a: nat, p: nat)
    requires Runs(table) && d < |cfls| && Backed(table, h, cfls[d := c'])
    requires Lends(c', a, p) && !Lends(cfls[d], a, p)
    requires forall b: nat, q: nat | Lends(cfls[d], b, q) :: Lends(c', b, q)
    ensures !LentAny(cfls, p)
  {
    hide Backed, Lends, Runs;
    if e: nat, b: nat :| e < |cfls| && Lends(cfls[e], b, p) {
      LentOnce(table, h, cfls[d := c'], e, b, d, a, p);
    }
  }

  lemma OneMore(cfls: seq<Cfl>, d: nat, c': Cfl, a: nat, p: nat)
    requires d < |cfls|
    requires forall b: nat, q: nat :: Lends(c', b, q) <==> Lends(cfls[d], b, q) || (b == a && q == p)
    ensures var cfls' := cfls[d := c'];
            && Lent(c', p)
            && (forall c: nat, b: nat, q: nat | c < |cfls| && Lends(cfls[c], b, q) :: Lends(cfls'[c], b, q))
            && forall q: nat :: LentAny(cfls', q) <==> LentAny(cfls, q) || q == p
  {
    hide Lends;
    var cfls' := cfls[d := c'];
    assert Lends(c', a, p) && Lent(cfls'[d], p);
    forall q: nat
      ensures LentAny(cfls', q) <==> LentAny(cfls, q) || q == p
    {
      if c: nat, b: nat :| c < |cfls| && Lends(cfls[c], b, q) {
        assert Lends(cfls'[c], b, q) && Lent(cfls'[c], q);
      }
      if c: nat, b: nat :| c < |cfls| && Lends(cfls'[c], b, q) && q != p {
        assert Lends(cfls[c], b, q) && Lent(cfls[c], q);
      }
    }
  }

  lemma SameOutside(s: State, s': State)
    requires s'.caches == s.caches && s'.slabs == s.slabs && s'.threads == s.threads && s'.user == s.user
    ensures forall p: nat :: Outside(s', p) == Outside(s, p)
  {
  }

  /** What the new object leaves true of the pointers a thread carries. */
  lemma AllLentMore(cfls: seq<Cfl>, cfls': seq<Cfl>, d: nat, p: nat, ps: seq<nat>)
    requires LendsOneMore(cfls, cfls', d, p) && AllLent(cfls[d], ps)
    ensures AllLent(cfls'[d], ps + [p])
  {
    hide Lends;
    forall i | 0 <= i < |ps|
      ensures Lent(cfls'[d], ps[i])
    {
      var a: nat :| Lends(cfls[d], a, ps[i]);
      assert Lends(cfls'[d], a, ps[i]);
    }
  }

  lemma TakeListSome(table: seq<SizeClass>, s: State, t: nat, cfls': seq<Cfl>, h': Heap, p: nat, th: Thread)
    requires Runs(table) && Inv(table, s) && t < |s.threads| && s.threads[t].pc.TakeList?
    requires th == s.threads[t].(batch := s.threads[t].batch + [p], pc := th.pc)
    requires s.threads[t].cls < |table|
    requires th.pc == if |th.batch| >= table[th.cls].batchSize then Pick else TakeList
    requires LendsOneMore(s.cfls, cfls', th.cls, p) && Backed(table, h', cfls')
    ensures Inv(table, Update(s, t, th).(cfls := cfls', heap := h'))
    ensures Kept(s.cfls, Update(s, t, th).(cfls := cfls', heap := h'))
  {
    hide Outside, Backed, Lends, Lent, LentAny, Capacity, Count, AllLent;
    var s' := Update(s, t, th).(cfls := cfls', heap := h');
    assert ThreadOk(table, s.cfls, s.threads[t]);
    AllLentMore(s.cfls, cfls', th.cls, p, s.threads[t].batch);
    SameOutside(Update(s, t, th), s');
    forall q: nat
      ensures Outside(s', q) == Outside(s, q) + if q == p then 1 else 0
    {
      ThreadDelta(s, t, th, q);
      CountJoin(s.threads[t].batch, [p], q);
      CountOne(p, q);
    }
    AllKept(table, s, s', t);
  }

  lemma TakeListNone(table: seq<SizeClass>, s: State, t: nat, c': Cfl, h': Heap, th: Thread)
    requires Runs(table) && Inv(table, s) && t < |s.threads| && s.threads[t].pc.TakeList?
    requires th == s.threads[t].(pc := Pick) && th.cls < |s.cfls|
    requires c'.size == s.cfls[th.cls].size && Outs(c') == Outs(s.cfls[th.cls])
    requires Backed(table, h', s.cfls[th.cls := c'])
    ensures Inv(table, Update(s, t, th).(cfls := s.cfls[th.cls := c'], heap := h'))
    ensures Kept(s.cfls, Update(s, t, th).(cfls := s.cfls[th.cls := c'], heap := h'))
  {
    hide Outside, Backed, Lends, Capacity, Count;
    var cfls' := s.cfls[th.cls := c'];
    var s' := Update(s, t, th).(cfls := cfls', heap := h');
    assert ThreadOk(table, s.cfls, s.threads[t]);
    SameLends(s.cfls, th.cls, c');
    SameOutside(Update(s, t, th), s');
    forall q: nat
      ensures Outside(s', q) == Outside(s, q)
    {
      ThreadDelta(s, t, th, q);
    }
    AllKept(table, s, s', t);
  }

  lemma SameLends(cfls: seq<Cfl>, d: nat, c': Cfl)
    requires d < |cfls| && c'.size == cfls[d].size && Outs(c') == Outs(cfls[d])
    ensures var cfls' := cfls[d := c'];
            && (forall c: nat, a: nat, q: nat | c < |cfls| :: Lends(cfls'[c], a, q) <==> Lends(cfls[c], a, q))
            && forall q: nat :: LentAny(cfls', q) <==> LentAny(cfls, q)
  {
    var cfls' := cfls[d := c'];
    forall o ensures Out(c', o) <==> Out(cfls[d], o) {
      assert o in Outs(c') <==> o in Outs(cfls[d]);
    }
    forall c: nat, a: nat, q: nat | c < |cfls|
      ensures Lends(cfls'[c], a, q) <==> Lends(cfls[c], a, q)
    {
    }
    hide Lends;
    forall q: nat
      ensures LentAny(cfls', q) <==> LentAny(cfls, q)
    {
      if c: nat, b: nat :| c < |cfls| && Lends(cfls[c], b, q) {
        assert Lends(cfls'[c], b, q) && Lent(cfls'[c], q);
      }
      if c: nat, b: nat :| c < |cfls| && Lends(cfls'[c], b, q) {
        assert Lends(cfls[c], b, q) && Lent(cfls[c], q);
      }
    }
  }

  lemma TakeListKeeps(table: seq<SizeClass>, s: State, t: nat, os: Option<nat>, s': State)
    requires Runs(table) && Inv(table, s) && t < |s.threads| && TakeListStep(table, s, t, os, s')
    ensures Inv(table, s') && Kept(s.cfls, s')
  {
    hide Outside, Backed, Lends, Capacity, Count, CflOk, AllocateOp, Served, Chosen, LendsOneMore, Counted;
    var th, c := s.threads[t], s.cfls[s.threads[t].cls];
    var got :| TakesFromList(table, s, t, got, os, s');
    AllocateBacked(table, s.heap, s'.heap, s.cfls, th.cls, got, os);
    if AllocateOp(c, got).1.Some? {
      AllocateLends(table, s.heap, s'.heap, s.cfls, th.cls, got, os);
      TakeListSome(table, s, t, s'.cfls, s'.heap, Address(AllocateOp(c, got).1.value, c.size), s'.threads[t]);
    } else {
      AllocateSame(s.heap, s'.heap, c, got, os);
      TakeListNone(table, s, t, AllocateOp(c, got).0, s'.heap, s'.threads[t]);
    }
  }

  lemma AllocateSame(h: Heap, h': Heap, c: Cfl, got: Option<nat>, os: Option<nat>)
    requires Granted(h, h', c, got, os) && CflOk(c) && (got.Some? ==> Position(c.spans, got.value) == |c.spans|)
    requires AllocateOp(c, got).1.None?
    ensures var c' := AllocateOp(c, got).0; c'.size == c.size && Outs(c') == Outs(c)
  {
    AllocateOk(c, got);
    AllocateListed(c, got, 0);
  }

  /** What one lent object fewer does to the pointers lent. */
  ghost predicate LendsOneLess(cfls: seq<Cfl>, cfls': seq<Cfl>, p: nat) {
    && |cfls| == |cfls'|
    && (forall c: nat, a: nat, q: nat | c < |cfls| && Lends(cfls[c], a, q) && q != p :: Lends(cfls'[c], a, q))
    && forall q: nat :: LentAny(cfls', q) <==> LentAny(cfls, q) && q != p
  }

  lemma OneLess(table: seq<SizeClass>, h: Heap, cfls: seq<Cfl>, d: nat, c': Cfl, a: nat, p: nat)
    requires Runs(table) && Backed(table, h, cfls) && d < |cfls| && Lends(cfls[d], a, p)
    requires forall b: nat, q: nat :: Lends(c', b, q) <==> Lends(cfls[d], b, q) && !(b == a && q == p)
    ensures LendsOneLess(cfls, cfls[d := c'], p)
  {
    hide Lends, Backed, Runs;
    var cfls' := cfls[d := c'];
    forall q: nat
      ensures LentAny(cfls', q) <==> LentAny(cfls, q) && q != p
    {
      if c: nat, b: nat :| c < |cfls| && Lends(cfls[c], b, q) && q != p {
        assert Lends(cfls'[c], b, q) && Lent(cfls'[c], q);
      }
      if c: nat, b: nat :| c < |cfls| && Lends(cfls'[c], b, q) {
        assert Lends(cfls[c], b, q) && Lent(cfls[c], q);
        if q == p { LentOnce(table, h, cfls, c, b, d, a, p); }
      }
    }
  }

  lemma FreeLends(table: seq<SizeClass>, h: Heap, cfls: seq<Cfl>, d: nat, a: nat, p: nat)
    requires Runs(table) && Backed(table, h, cfls) && d < |cfls| && Lends(cfls[d], a, p) && InUse(h, a)
    requires cfls[d].size > 0 && a * PAGE_SIZE <= p && Listed(cfls[d], a)
    requires var c, i := cfls[d], PtrToIndex(p, a * PAGE_SIZE, cfls[d].size);
             Outstanding(c.spans[Position(c.spans, a)], i) && Address(Object(a, i), c.size) == p
    ensures var c, i := cfls[d], PtrToIndex(p, a * PAGE_SIZE, cfls[d].size);
            var cfls' := cfls[d := FreeOp(c, Position(c.spans, a), i)];
            Backed(table, HeapAfterFree(h, c, a), cfls') && LendsOneLess(cfls, cfls', p)
  {
    hide FreeOp, HeapAfterFree, LendsOneLess, Lends, WellOrdered, Divisible, ValidHeap;
    var c, i := cfls[d], PtrToIndex(p, a * PAGE_SIZE, cfls[d].size);
    var k := Position(c.spans, a);
    FreeBacked(table, h, cfls, d, a, i);
    FreeOk(c, k, i);
    FreeListed(c, k, i, a);
    FreeSize(c, k, i);
    LendsLess(c, FreeOp(c, k, i), Object(a, i));
    OneLess(table, h, cfls, d, FreeOp(c, k, i), a, p);
  }

  lemma FreeSize(c: Cfl, k: nat, i: nat)
    requires k < |c.spans|
    ensures FreeOp(c, k, i).size == c.size
  {
  }

  lemma GiveHomeMoves(table: seq<SizeClass>, s: State, t: nat, cfls': seq<Cfl>, h': Heap, th: Thread)
    requires Runs(table) && Inv(table, s) && t < |s.threads| && s.threads[t].pc.GiveHome? && s.threads[t].batch != []
    requires var rest := s.threads[t].batch[1..];
             th == if rest == [] then Released(s.threads[t]) else s.threads[t].(batch := rest, pc := FindHome)
    requires Backed(table, h', cfls') && LendsOneLess(s.cfls, cfls', s.threads[t].batch[0])
    ensures Inv(table, Update(s, t, th).(cfls := cfls', heap := h'))
    ensures Kept(s.cfls, Update(s, t, th).(cfls := cfls', heap := h'))
  {
    hide Outside, Backed, Lends, Lent, LentAny, Capacity, Count;
    var s', p := Update(s, t, th).(cfls := cfls', heap := h'), s.threads[t].batch[0];
    assert ThreadOk(table, s.cfls, s.threads[t]);
    SameOutside(Update(s, t, th), s');
    forall q: nat
      ensures Outside(s, q) == Outside(s', q) + if q == p then 1 else 0
    {
      ThreadDelta(s, t, th, q);
      CountSplit(s.threads[t].batch, 1, q);
      assert s.threads[t].batch[..1] == [p];
      CountOne(p, q);
      CountNone(q);
    }
    assert ThreadOk(table, s.cfls, th);
    GoneKept(s, s', p);
    ThreadKept(table, s.cfls, s', t);
    AllKept(table, s, s', t);
  }

  /** Whatever is still outside is lent as before. */
  lemma GoneKept(s: State, s': State, p: nat)
    requires LendsOneLess(s.cfls, s'.cfls, p) && Counted(s)
    requires forall q: nat :: Outside(s, q) == Outside(s', q) + if q == p then 1 else 0
    ensures Kept(s.cfls, s') && Counted(s')
  {
    hide Outside, Lends;
  }

  lemma GiveHomeKeeps(table: seq<SizeClass>, s: State, t: nat, s': State)
    requires Runs(table) && Inv(table, s) && t < |s.threads| && GiveHomeStep(s, t, s')
    ensures Inv(table, s') && Kept(s.cfls, s')
  {
    hide Outside, Lends, Capacity, Count, CflOk, FreeOp, Counted, Divisible, WellOrdered, GiveBack, SpansInUse,
         LendsOneLess, ValidHeap, CachesOk, SlabsOk;
    var th := s.threads[t];
    assert ThreadOk(table, s.cfls, th);
    AllIndexed(table);
    LendsPlace(table[th.cls], s.cfls[th.cls], s.heap, th.span, th.batch[0]);
    FreeLends(table, s.heap, s.cfls, th.cls, th.span, th.batch[0]);
    GiveHomeMoves(table, s, t, s'.cfls, s'.heap, s'.threads[t]);
  }
}
