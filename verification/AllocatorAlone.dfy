/** A thread that nobody disturbs: its steps, taken one after the other on one CPU, do to cache, stack and
    callers what the calls of the allocator (allocator.hpp) promise, stated without the steps. */
module AllocatorAlone {
  import opened Counting
  import opened Widths
  import opened PageHeapSpec
  import opened PackedLists
  import opened CflSpec
  import opened CflLaws
  import opened CflMemory
  import opened SizeClasses
  import opened SlabLayout
  import opened BatchMoves
  import opened AllocatorSteps
  import opened AllocatorLaws
  import opened AllocatorRuns
  import opened AllocatorSafety
  import opened AllocatorProgress

  // ---- what one class on one CPU looks like ----

  /** How long it may get. */
  ghost function RoomOn(table: seq<SizeClass>, s: State, cpu: nat, c: nat): nat
    requires Divisible(table) && c < |table|
  {
    if cpu < |s.slabs| then Capacity(table, c) else 0
  }

  datatype View = View(th: Thread, stack: seq<nat>, cached: seq<nat>, user: multiset<nat>, list: Cfl, heap: Heap)

  function ViewOf(s: State, t: nat, cpu: nat, c: nat): View
    requires t < |s.threads| && c < |s.caches| && c < |s.cfls|
  {
    View(s.threads[t], StackOn(s, cpu, c), s.caches[c], s.user, s.cfls[c], s.heap)
  }

  ghost predicate InView(s: State, t: nat, c: nat) {
    t < |s.threads| && c < |s.caches| && c < |s.cfls|
  }

  /** Nothing out of that view has changed: no other class, CPU or thread. */
  ghost predicate Elsewhere(s: State, s': State, t: nat, cpu: nat, c: nat) {
    && |s'.threads| == |s.threads| && |s'.caches| == |s.caches| && |s'.cfls| == |s.cfls| && |s'.slabs| == |s.slabs|
    && (forall u | 0 <= u < |s.threads| && u != t :: s'.threads[u] == s.threads[u])
    && (forall d | 0 <= d < |s.caches| && d != c :: s'.caches[d] == s.caches[d])
    && (forall d | 0 <= d < |s.cfls| && d != c :: s'.cfls[d] == s.cfls[d])
    && (forall i | 0 <= i < |s.slabs| :: |s'.slabs[i]| == |s.slabs[i]|)
    && forall i, d | 0 <= i < |s.slabs| && 0 <= d < |s.slabs[i]| && (i != cpu || d != c) ::
         s'.slabs[i][d] == s.slabs[i][d]
  }

  lemma ElsewhereJoin(s: State, s1: State, s2: State, t: nat, cpu: nat, c: nat)
    requires Elsewhere(s, s1, t, cpu, c) && Elsewhere(s1, s2, t, cpu, c)
    ensures Elsewhere(s, s2, t, cpu, c)
  {
  }

  /** What the invariant says about a view. */
  lemma InvSeen(table: seq<SizeClass>, s: State, t: nat, cpu: nat, c: nat)
    requires Runs(table) && Inv(table, s) && t < |s.threads| && 1 <= c < |table|
    ensures InView(s, t, c) && (forall i | 0 <= i < |s.slabs| :: |s.slabs[i]| == |table|)
    ensures 0 < table[c].batchSize <= Capacity(table, c)
    ensures |s.caches[c]| <= TRANSFER_CACHE_CAPACITY && |StackOn(s, cpu, c)| <= RoomOn(table, s, cpu, c)
    ensures SlabRoom(table, s, cpu, c) <==> |StackOn(s, cpu, c)| < RoomOn(table, s, cpu, c)
    ensures SlabTop(s, cpu, c) == if StackOn(s, cpu, c) == [] then None
                                  else Some(StackOn(s, cpu, c)[|StackOn(s, cpu, c)| - 1])
  {
    hide Capacity, ThreadsOk, Counted, AllLent, WellOrdered;
    SameLength(table, s);
    CapacityLaws(table, c);
    assert CacheOk(s.cfls, s, c);
    if cpu < |s.slabs| { assert SlabOk(table, s.cfls, s, cpu, c); }
  }

  // ---- how single accesses look ----

  lemma PopSeen(s: State, t: nat, cpu: nat, c: nat, th: Thread)
    requires InView(s, t, c) && SlabTop(s, cpu, c).Some?
    ensures var s', v := Update(AfterPop(s, cpu, c), t, th), ViewOf(s, t, cpu, c);
            && Elsewhere(s, s', t, cpu, c) && InView(s', t, c) && v.stack != []
            && ViewOf(s', t, cpu, c) == v.(th := th, stack := v.stack[..|v.stack| - 1])
  {
  }

  lemma PushSeen(s: State, t: nat, cpu: nat, c: nat, q: nat, th: Thread)
    requires InView(s, t, c) && cpu < |s.slabs| && c < |s.slabs[cpu]|
    ensures var s', v := Update(AfterPush(s, cpu, c, q), t, th), ViewOf(s, t, cpu, c);
            && Elsewhere(s, s', t, cpu, c) && InView(s', t, c)
            && ViewOf(s', t, cpu, c) == v.(th := th, stack := v.stack + [q])
  {
  }

  lemma ThreadSeen(s: State, t: nat, cpu: nat, c: nat, th: Thread)
    requires InView(s, t, c)
    ensures Elsewhere(s, Update(s, t, th), t, cpu, c) && InView(Update(s, t, th), t, c)
    ensures ViewOf(Update(s, t, th), t, cpu, c) == ViewOf(s, t, cpu, c).(th := th)
  {
  }

  // ---- allocate ----

  /** What is left of the cache once batch b came off it; b came from the list when the cache was empty. */
  ghost function Rest(cached: seq<nat>, b: seq<nat>): seq<nat> {
    if |b| <= |cached| then cached[..|cached| - |b|] else []
  }

  /** Batch b came off the top of the cache, or from the list when the cache was empty. */
  ghost predicate Came(n: nat, cached: seq<nat>, cached': seq<nat>, b: seq<nat>) {
    |b| <= n && cached' == Rest(cached, b) && (cached != [] ==> b != [] && TakenOff(b, n, cached, cached'))
  }

  /** The list was not asked while the cache had any; when it was, it gave n objects or has none left. */
  ghost predicate ListKept(n: nat, v0: View, v: View, b: seq<nat>) {
    if v0.cached != [] then v.list == v0.list && v.heap == v0.heap
    else |b| < n ==> Spent(v.list, v.heap, None)
  }

  /** What the call leaves: the top of the stack went out, or a batch's last pointer while the others were
      republished. As long as none of those had to go back to the list, the list is as the refill left it. */
  ghost predicate Served(n: nat, room: nat, v0: View, v: View, b: seq<nat>, q: nat) {
    if v0.stack != [] then v0.stack == v.stack + [q] && v.cached == v0.cached && v.list == v0.list && v.heap == v0.heap
    else
      && Refilled(b, q, n, room, v0.cached, v.cached, v.stack)
      && (1 + |v.stack| + |v.cached| == |b| + |Rest(v0.cached, b)| ==> ListKept(n, v0, v, b))
  }

  /** allocate has returned: a pointer, or null with stack and cache empty and the list spent. */
  ghost predicate Allocated(n: nat, room: nat, v0: View, v: View, b: seq<nat>) {
    if v.user == v0.user then
      && v0.stack == v.stack == [] && v0.cached == v.cached == [] && Spent(v.list, v.heap, None)
    else
      exists q: nat :: v.user == v0.user + multiset{q} && Served(n, room, v0, v, b, q)
  }

  /** In the middle of allocate, batch b being what its refill was given so far. */
  ghost predicate Republishing(n: nat, room: nat, v0: View, v: View, b: seq<nat>) {
    var left, j := |b| - 1, |v.th.batch|;
    && v0.stack == [] && b != [] && j <= left && v.th.hand == Some(b[left]) && v.th.batch == b[..j]
    && Came(n, v0.cached, v.cached, b) && ListKept(n, v0, v, b)
    && |v.stack| <= room && v.stack == Backwards(b, j, left)
  }

  /** Where allocate stands at each place of the program. */
  ghost predicate AllocPhase(n: nat, room: nat, v0: View, v: View, b: seq<nat>) {
    var th := v.th;
    && (th.pc.Idle? || (th.op.Alloc? && th.cls == v0.th.cls && v.user == v0.user))
    && match th.pc
       case PopSlab => v == v0 && th.batch == [] && b == []
       case TakeCache => v == v0.(th := th) && v0.stack == [] && th.batch == [] && b == []
       case TakeList => v.cached == v0.cached == [] && v.stack == v0.stack == [] && b == th.batch
       case Pick =>
         v.stack == v0.stack == [] && b == th.batch && Came(n, v0.cached, v.cached, b) && ListKept(n, v0, v, b)
       case Publish => Republishing(n, room, v0, v, b)
       case FillCache => Republishing(n, room, v0, v, b) && th.batch != [] && |v.stack| == room
       case FindHome => GivesBack(n, room, v0, v, b)
       case GiveHome => GivesBack(n, room, v0, v, b)
       case Deliver => th.hand.Some? && Served(n, room, v0, v, b, th.hand.value)
       case Idle => Allocated(n, room, v0, v, b)
       case _ => false
  }

  /** The rest of the batch goes back to the list: stack and cache are full. */
  ghost predicate GivesBack(n: nat, room: nat, v0: View, v: View, b: seq<nat>) {
    && v0.stack == [] && b != [] && v.th.hand == Some(b[|b| - 1])
    && Refilled(b, b[|b| - 1], n, room, v0.cached, v.cached, v.stack)
    && 1 + |v.stack| + |v.cached| < |b| + |Rest(v0.cached, b)|
  }

  lemma PopPhase(table: seq<SizeClass>, v0: View, s: State, t: nat, cpu: nat, c: nat, s': State, b: seq<nat>)
    requires Runs(table) && Inv(table, s) && t < |s.threads| && PopStep(s, t, cpu, s') && 1 <= c < |table|
    requires s.threads[t].cls == c && InView(s, t, c) && v0.th.cls == c
    requires AllocPhase(table[c].batchSize, RoomOn(table, s, cpu, c), v0, ViewOf(s, t, cpu, c), b)
    ensures Elsewhere(s, s', t, cpu, c) && InView(s', t, c)
    ensures AllocPhase(table[c].batchSize, RoomOn(table, s, cpu, c), v0, ViewOf(s', t, cpu, c), b)
  {
    hide Inv, WellOrdered, Divisible, Capacity, Refilled;
    InvSeen(table, s, t, cpu, c);
    var stack := StackOn(s, cpu, c);
    assert stack != [] ==> stack == stack[..|stack| - 1] + [stack[|stack| - 1]];
  }

  lemma TakeCachePhase(table: seq<SizeClass>, v0: View, s: State, t: nat, cpu: nat, c: nat, s': State)
    returns (b: seq<nat>)
    requires Runs(table) && Inv(table, s) && t < |s.threads| && TakeCacheStep(table, s, t, s') && 1 <= c < |table|
    requires s.threads[t].cls == c && InView(s, t, c) && v0.th.cls == c
    requires AllocPhase(table[c].batchSize, RoomOn(table, s, cpu, c), v0, ViewOf(s, t, cpu, c), [])
    ensures Elsewhere(s, s', t, cpu, c) && InView(s', t, c)
    ensures AllocPhase(table[c].batchSize, RoomOn(table, s, cpu, c), v0, ViewOf(s', t, cpu, c), b)
  {
    hide Inv, WellOrdered, Divisible, Capacity, Refilled;
    InvSeen(table, s, t, cpu, c);
    b := s'.threads[t].batch;
  }

  lemma TakeListPhase(table: seq<SizeClass>, v0: View, s: State, t: nat, cpu: nat, c: nat, os: Option<nat>, s': State)
    returns (b: seq<nat>)
    requires Runs(table) && Inv(table, s) && t < |s.threads| && TakeListStep(table, s, t, os, s') && 1 <= c < |table|
    requires s.threads[t].cls == c && InView(s, t, c) && v0.th.cls == c
    requires AllocPhase(table[c].batchSize, RoomOn(table, s, cpu, c), v0, ViewOf(s, t, cpu, c), s.threads[t].batch)
    ensures Elsewhere(s, s', t, cpu, c) && InView(s', t, c)
    ensures AllocPhase(table[c].batchSize, RoomOn(table, s, cpu, c), v0, ViewOf(s', t, cpu, c), b)
  {
    hide Inv, WellOrdered, Divisible, Capacity, Refilled, AllocateOp, CflOk, Granted, Spent;
    Bounds(table, s, t);
    TakeListGives(table, s, t, os, s');
    b := s'.threads[t].batch;
  }

  lemma PickPhase(table: seq<SizeClass>, v0: View, s: State, t: nat, cpu: nat, c: nat, s': State, b: seq<nat>)
    requires Runs(table) && Inv(table, s) && t < |s.threads| && PickStep(s, t, s') && 1 <= c < |table|
    requires s.threads[t].cls == c && InView(s, t, c) && v0.th.cls == c
    requires AllocPhase(table[c].batchSize, RoomOn(table, s, cpu, c), v0, ViewOf(s, t, cpu, c), b)
    ensures Elsewhere(s, s', t, cpu, c) && InView(s', t, c)
    ensures AllocPhase(table[c].batchSize, RoomOn(table, s, cpu, c), v0, ViewOf(s', t, cpu, c), b)
  {
    hide Inv, WellOrdered, Divisible, Capacity, Refilled, Spent;
    InvSeen(table, s, t, cpu, c);
  }

  lemma PublishPhase(table: seq<SizeClass>, v0: View, s: State, t: nat, cpu: nat, c: nat, s': State, b: seq<nat>)
    requires Runs(table) && Inv(table, s) && t < |s.threads| && PublishStep(table, s, t, cpu, s') && 1 <= c < |table|
    requires s.threads[t].cls == c && InView(s, t, c) && v0.th.cls == c
    requires AllocPhase(table[c].batchSize, RoomOn(table, s, cpu, c), v0, ViewOf(s, t, cpu, c), b)
    ensures Elsewhere(s, s', t, cpu, c) && InView(s', t, c)
    ensures AllocPhase(table[c].batchSize, RoomOn(table, s, cpu, c), v0, ViewOf(s', t, cpu, c), b)
  {
    hide Inv, WellOrdered, Divisible, Capacity, Refilled, Spent, Came, SlabRoom, Republishing, AfterPush, Update,
         StackOn, Elsewhere;
    InvSeen(table, s, t, cpu, c);
    var n, room, v := table[c].batchSize, RoomOn(table, s, cpu, c), ViewOf(s, t, cpu, c);
    var th := v.th;
    RepublishingFacts(n, room, v0, v, b);
    if th.batch == [] {
      AllPushed(n, room, v0, v, b);
      ThreadSeen(s, t, cpu, c, th.(pc := Deliver));
    } else if |v.stack| < room {
      var q := th.batch[|th.batch| - 1];
      OnePushed(n, room, v0, v, b, v.stack + [q]);
      PushSeen(s, t, cpu, c, q, th.(batch := th.batch[..|th.batch| - 1]));
    } else {
      ThreadSeen(s, t, cpu, c, th.(pc := FillCache));
    }
  }

  lemma RepublishingFacts(n: nat, room: nat, v0: View, v: View, b: seq<nat>)
    requires Republishing(n, room, v0, v, b)
    ensures b != [] && v.th.hand == Some(b[|b| - 1]) && v0.stack == []
    ensures forall pc :: Republishing(n, room, v0, v.(th := v.th.(pc := pc)), b)
  {
  }

  lemma OnePushed(n: nat, room: nat, v0: View, v: View, b: seq<nat>, stack': seq<nat>)
    requires Republishing(n, room, v0, v, b) && v.th.batch != [] && |v.stack| < room
    requires stack' == v.stack + [v.th.batch[|v.th.batch| - 1]]
    ensures Republishing(n, room, v0, v.(stack := stack', th := v.th.(batch := v.th.batch[..|v.th.batch| - 1])), b)
  {
    hide Came, ListKept;
    SameListKept(n, v0, v, v.(stack := stack', th := v.th.(batch := v.th.batch[..|v.th.batch| - 1])), b);
    LastBackwards(b, |v.th.batch|, |b| - 1);
    assert b[..|v.th.batch|][..|v.th.batch| - 1] == b[..|v.th.batch| - 1];
  }

  lemma SameListKept(n: nat, v0: View, v: View, v': View, b: seq<nat>)
    requires v'.list == v.list && v'.heap == v.heap
    ensures ListKept(n, v0, v, b) <==> ListKept(n, v0, v', b)
  {
  }

  /** The whole batch is on the stack. */
  lemma AllPushed(n: nat, room: nat, v0: View, v: View, b: seq<nat>)
    requires Republishing(n, room, v0, v, b) && v.th.batch == [] && |v.cached| <= TRANSFER_CACHE_CAPACITY
    ensures Served(n, room, v0, v, b, b[|b| - 1])
  {
    assert Backwards(b[..|b| - 1], 0, |b| - 1) == Backwards(b, 0, |b| - 1);
  }

  /** What the stack had no room for went on the cache, all of it or what fits there. */
  lemma StoredRest(n: nat, room: nat, v0: View, v: View, b: seq<nat>, cached': seq<nat>)
    requires Republishing(n, room, v0, v, b) && |v.stack| == room && PutOn(v.th.batch, v.cached, cached')
    ensures Refilled(b, b[|b| - 1], n, room, v0.cached, cached', v.stack)
    ensures 1 + |v.stack| + |cached'| + (|v.th.batch| + |v.cached| - |cached'|) == |b| + |Rest(v0.cached, b)|
  {
    hide ListKept, PutOn;
    PushedPart(b, |v.th.batch|, room, v.stack);
    PutCount(v.th.batch, v.cached, cached');
  }

  lemma PushedPart(b: seq<nat>, j: nat, room: nat, stack: seq<nat>)
    requires b != [] && j < |b| && |stack| == room && stack == Backwards(b, j, |b| - 1)
    ensures PushedBack(b[..|b| - 1], room, [], stack) && b[..|b| - 1][..j] == b[..j] && |stack| == |b| - 1 - j
  {
    assert Backwards(b[..|b| - 1], j, |b| - 1) == Backwards(b, j, |b| - 1);
  }

  lemma PutCount(b: seq<nat>, cached: seq<nat>, cached': seq<nat>)
    requires PutOn(b, cached, cached')
    ensures |cached| <= |cached'| <= |cached| + |b|
  {
  }

  lemma FillCachePhase(table: seq<SizeClass>, v0: View, s: State, t: nat, cpu: nat, c: nat, s': State, b: seq<nat>)
    requires Runs(table) && Inv(table, s) && t < |s.threads| && FillCacheStep(s, t, s') && 1 <= c < |table|
    requires s.threads[t].cls == c && InView(s, t, c) && v0.th.cls == c
    requires AllocPhase(table[c].batchSize, RoomOn(table, s, cpu, c), v0, ViewOf(s, t, cpu, c), b)
    ensures Elsewhere(s, s', t, cpu, c) && InView(s', t, c)
    ensures AllocPhase(table[c].batchSize, RoomOn(table, s, cpu, c), v0, ViewOf(s', t, cpu, c), b)
  {
    hide Inv, WellOrdered, Divisible, Capacity, Refilled, Spent, Came;
    InvSeen(table, s, t, cpu, c);
    StoredRest(table[c].batchSize, RoomOn(table, s, cpu, c), v0, ViewOf(s, t, cpu, c), b, s'.caches[c]);
  }

  lemma HomePhase(table: seq<SizeClass>, v0: View, s: State, t: nat, cpu: nat, c: nat, s': State, b: seq<nat>)
    requires Runs(table) && Inv(table, s) && t < |s.threads| && !s'.fault && 1 <= c < |table|
    requires FindHomeStep(s, t, s') || GiveHomeStep(s, t, s')
    requires s.threads[t].cls == c && InView(s, t, c) && v0.th.cls == c
    requires AllocPhase(table[c].batchSize, RoomOn(table, s, cpu, c), v0, ViewOf(s, t, cpu, c), b)
    ensures Elsewhere(s, s', t, cpu, c) && InView(s', t, c)
    ensures AllocPhase(table[c].batchSize, RoomOn(table, s, cpu, c), v0, ViewOf(s', t, cpu, c), b)
  {
    hide Inv, WellOrdered, Divisible, Capacity, Refilled, Spent, Came, FreeOp, GiveBack, Outstanding, Managed, InSpan;
    InvSeen(table, s, t, cpu, c);
  }

  lemma DeliverPhase(table: seq<SizeClass>, v0: View, s: State, t: nat, cpu: nat, c: nat, s': State, b: seq<nat>)
    requires Runs(table) && Inv(table, s) && t < |s.threads| && DeliverStep(s, t, s') && 1 <= c < |table|
    requires s.threads[t].cls == c && InView(s, t, c) && v0.th.cls == c
    requires AllocPhase(table[c].batchSize, RoomOn(table, s, cpu, c), v0, ViewOf(s, t, cpu, c), b)
    ensures Elsewhere(s, s', t, cpu, c) && InView(s', t, c)
    ensures AllocPhase(table[c].batchSize, RoomOn(table, s, cpu, c), v0, ViewOf(s', t, cpu, c), b)
  {
    hide Inv, WellOrdered, Divisible, Capacity, Refilled, Spent, Came;
    var th := s.threads[t];
    assert s'.user[th.hand.value] == s.user[th.hand.value] + 1;
    assert Served(table[c].batchSize, RoomOn(table, s, cpu, c), v0, ViewOf(s', t, cpu, c), b, th.hand.value);
  }

  // ---- deallocate ----

  /** deallocate has returned: p is on the stack, where a drain made room for it if need be. As long as no pointer
      had to go back to the list, the list is as it was. */
  ghost predicate Freed(n: nat, room: nat, v0: View, v: View, p: nat) {
    && v.user == v0.user && PutBack(p, n, room, v0.cached, v0.stack, v.cached, v.stack)
    && (|v.stack| + |v.cached| == 1 + |v0.stack| + |v0.cached| ==> v.list == v0.list && v.heap == v0.heap)
  }

  /** Nothing but the thread's variables has changed since the call began. */
  ghost predicate Untaken(v0: View, v: View, p: nat) {
    v == v0.(th := v.th) && v.th.hand == Some(p) && v.th.batch == []
  }

  /** Met a full stack, and took its top into the batch. */
  ghost predicate Draining(n: nat, room: nat, v0: View, v: View, p: nat) {
    && v == v0.(th := v.th, stack := v.stack) && v.th.hand == Some(p) && |v0.stack| == room
    && |v.stack| <= |v0.stack| && v.stack == v0.stack[..|v.stack|]
    && v.th.batch == Backwards(v0.stack, |v.stack|, |v0.stack|) && |v.th.batch| <= n
  }

  ghost predicate Retrying(n: nat, room: nat, v0: View, v: View, p: nat) {
    && v.th.hand == Some(p) && |v0.stack| == room && Drained(n, v0.cached, v0.stack, v.cached, v.stack)
    && (|v.stack| + |v.cached| == |v0.stack| + |v0.cached| ==> v.list == v0.list && v.heap == v0.heap)
  }

  /** Some of the drained batch goes back to the list, or p itself does when there is no slab. */
  ghost predicate SendsHome(n: nat, room: nat, v0: View, v: View, p: nat) {
    if v.th.hand.Some? then
      && v.th.hand == Some(p) && |v0.stack| == room && Drained(n, v0.cached, v0.stack, v.cached, v.stack)
      && |v.stack| + |v.cached| < |v0.stack| + |v0.cached|
    else
      room == 0 && v.stack == v0.stack == [] && v.cached == v0.cached
  }

  /** Where deallocate of a pointer p of class c stands at each place of the program. */
  ghost predicate FreePhase(n: nat, room: nat, c: nat, v0: View, v: View, p: nat) {
    var th := v.th;
    && (th.pc.Idle? || (th.op.Free? && v.user == v0.user))
    && (th.pc.Idle? || th.pc.FindSpan? || th.pc.ReadSize? || th.cls == c)
    && match th.pc
       case FindSpan => Untaken(v0, v, p)
       case ReadSize => Untaken(v0, v, p)
       case PushSlab => Untaken(v0, v, p)
       case Drain => Draining(n, room, v0, v, p)
       case FillCache => Draining(n, room, v0, v, p) && th.batch != [] && (|th.batch| == n || v.stack == [])
       case FindHome => SendsHome(n, room, v0, v, p)
       case GiveHome => SendsHome(n, room, v0, v, p)
       case PushAgain => Retrying(n, room, v0, v, p)
       case Idle => Freed(n, room, v0, v, p)
       case _ => false
  }

  lemma FindPhase(table: seq<SizeClass>, v0: View, s: State, t: nat, cpu: nat, c: nat, s': State, p: nat)
    requires Runs(table) && Inv(table, s) && t < |s.threads| && !s'.fault && 1 <= c < |table|
    requires FindSpanStep(s, t, s') || ReadSizeStep(table, s, t, s')
    requires InView(s, t, c) && Lent(s.cfls[c], p)
    requires FreePhase(table[c].batchSize, RoomOn(table, s, cpu, c), c, v0, ViewOf(s, t, cpu, c), p)
    ensures Elsewhere(s, s', t, cpu, c) && InView(s', t, c) && Lent(s'.cfls[c], p)
    ensures FreePhase(table[c].batchSize, RoomOn(table, s, cpu, c), c, v0, ViewOf(s', t, cpu, c), p)
  {
    hide Inv, WellOrdered, Divisible, Capacity, Lent, InSpan, Managed, SizeIndex;
    if ReadSizeStep(table, s, t, s') { ClassRead(table, s, t, c, s', p); }
  }

  /** The class read off the span is the one that lent the pointer. */
  lemma ClassRead(table: seq<SizeClass>, s: State, t: nat, c: nat, s': State, p: nat)
    requires Runs(table) && Inv(table, s) && t < |s.threads| && !s'.fault && c < |s.cfls|
    requires ReadSizeStep(table, s, t, s') && s.threads[t].hand == Some(p) && Lent(s.cfls[c], p)
    ensures s' == Update(s, t, s.threads[t].(cls := c, pc := PushSlab))
  {
    hide Outside, Backed, Lends, Capacity, Divisible, Count, InSpan, SizeIndex, CachesOk, SlabsOk, Counted;
    var th := s.threads[t];
    assert ThreadOk(table, s.cfls, th);
    var d: nat :| d < |s.cfls| && Lends(s.cfls[d], th.span, p);
    var a: nat :| Lends(s.cfls[c], a, p);
    LentOnce(table, s.heap, s.cfls, d, th.span, c, a, p);
    FoundInHeap(table, s.heap, s.cfls, th.span, p);
    var idx: nat :| SizeIndex(table, s.heap[th.span].size, idx)
      && s' == if idx == 0 then s.(fault := true) else Update(s, t, th.(cls := idx, pc := PushSlab));
    RoutesHome(table, s.heap, s.cfls, c, th.span, p, idx);
  }

  lemma PushPhase(table: seq<SizeClass>, v0: View, s: State, t: nat, cpu: nat, c: nat, s': State, p: nat)
    requires Runs(table) && Inv(table, s) && t < |s.threads| && PushStep(table, s, t, cpu, s') && 1 <= c < |table|
    requires InView(s, t, c)
    requires FreePhase(table[c].batchSize, RoomOn(table, s, cpu, c), c, v0, ViewOf(s, t, cpu, c), p)
    ensures Elsewhere(s, s', t, cpu, c) && InView(s', t, c)
    ensures FreePhase(table[c].batchSize, RoomOn(table, s, cpu, c), c, v0, ViewOf(s', t, cpu, c), p)
  {
    hide Inv, WellOrdered, Divisible, Capacity, Drained, SlabRoom, AfterPush, Update, StackOn, Elsewhere;
    InvSeen(table, s, t, cpu, c);
    var n, room, v := table[c].batchSize, RoomOn(table, s, cpu, c), ViewOf(s, t, cpu, c);
    var th := v.th;
    if th.pc.PushAgain? {
      Retried(n, room, v0, v, p);
    } else {
      assert Backwards(v.stack, |v.stack|, |v.stack|) == [];
      assert v.stack == v.stack[..|v.stack|];
    }
    if |v.stack| < room {
      PushSeen(s, t, cpu, c, p, th.(hand := None, pc := Idle));
    } else {
      ThreadSeen(s, t, cpu, c, if th.pc.PushSlab? then th.(pc := Drain)
                 else th.(hand := None, batch := [p], pc := FindHome));
    }
  }

  /** After a drain the stack has room again, unless there is no slab. */
  lemma Retried(n: nat, room: nat, v0: View, v: View, p: nat)
    requires Retrying(n, room, v0, v, p) && 0 < n
    ensures |v.stack| < room ==> PutBack(p, n, room, v0.cached, v0.stack, v.cached, v.stack + [p])
    ensures |v.stack| >= room ==> room == 0 && v.stack == v0.stack == [] && v.cached == v0.cached
  {
    assert (v.stack + [p])[..|v.stack|] == v.stack;
  }

  lemma DrainPhase(table: seq<SizeClass>, v0: View, s: State, t: nat, cpu: nat, c: nat, s': State, p: nat)
    requires Runs(table) && Inv(table, s) && t < |s.threads| && DrainStep(table, s, t, cpu, s') && 1 <= c < |table|
    requires InView(s, t, c)
    requires FreePhase(table[c].batchSize, RoomOn(table, s, cpu, c), c, v0, ViewOf(s, t, cpu, c), p)
    ensures Elsewhere(s, s', t, cpu, c) && InView(s', t, c)
    ensures FreePhase(table[c].batchSize, RoomOn(table, s, cpu, c), c, v0, ViewOf(s', t, cpu, c), p)
  {
    hide Inv, WellOrdered, Divisible, Capacity, Drained, SlabTop, Draining, AfterPop, Update, StackOn, Elsewhere;
    InvSeen(table, s, t, cpu, c);
    var n, room, v := table[c].batchSize, RoomOn(table, s, cpu, c), ViewOf(s, t, cpu, c);
    var th := v.th;
    if |th.batch| < n && v.stack != [] {
      OnePopped(n, room, v0, v, p);
      PopSeen(s, t, cpu, c, th.(batch := th.batch + [v.stack[|v.stack| - 1]]));
    } else {
      DrainEnds(n, room, v0, v, p);
      ThreadSeen(s, t, cpu, c, th.(pc := if th.batch == [] then PushAgain else FillCache));
    }
  }

  lemma OnePopped(n: nat, room: nat, v0: View, v: View, p: nat)
    requires Draining(n, room, v0, v, p) && |v.th.batch| < n && v.stack != []
    ensures var top := v.stack[|v.stack| - 1];
            Draining(n, room, v0, v.(stack := v.stack[..|v.stack| - 1], th := v.th.(batch := v.th.batch + [top])), p)
  {
    LastBackwards(v0.stack, |v.stack|, |v0.stack|);
  }

  lemma DrainEnds(n: nat, room: nat, v0: View, v: View, p: nat)
    requires Draining(n, room, v0, v, p) && (|v.th.batch| >= n || v.stack == []) && 0 < n
    requires |v.cached| <= TRANSFER_CACHE_CAPACITY
    ensures |v.th.batch| == n || v.stack == []
    ensures Draining(n, room, v0, v.(th := v.th.(pc := FillCache)), p)
    ensures v.th.batch == [] ==> Retrying(n, room, v0, v.(th := v.th.(pc := PushAgain)), p)
  {
  }

  lemma FillPhase(table: seq<SizeClass>, v0: View, s: State, t: nat, cpu: nat, c: nat, s': State, p: nat)
    requires Runs(table) && Inv(table, s) && t < |s.threads| && FillCacheStep(s, t, s') && 1 <= c < |table|
    requires InView(s, t, c)
    requires FreePhase(table[c].batchSize, RoomOn(table, s, cpu, c), c, v0, ViewOf(s, t, cpu, c), p)
    ensures Elsewhere(s, s', t, cpu, c) && InView(s', t, c)
    ensures FreePhase(table[c].batchSize, RoomOn(table, s, cpu, c), c, v0, ViewOf(s', t, cpu, c), p)
  {
    hide Inv, WellOrdered, Divisible, Capacity;
    InvSeen(table, s, t, cpu, c);
  }

  lemma SendPhase(table: seq<SizeClass>, v0: View, s: State, t: nat, cpu: nat, c: nat, s': State, p: nat)
    requires Runs(table) && Inv(table, s) && t < |s.threads| && !s'.fault && 1 <= c < |table|
    requires FindHomeStep(s, t, s') || GiveHomeStep(s, t, s')
    requires InView(s, t, c)
    requires FreePhase(table[c].batchSize, RoomOn(table, s, cpu, c), c, v0, ViewOf(s, t, cpu, c), p)
    ensures Elsewhere(s, s', t, cpu, c) && InView(s', t, c)
    ensures FreePhase(table[c].batchSize, RoomOn(table, s, cpu, c), c, v0, ViewOf(s', t, cpu, c), p)
  {
    hide Inv, WellOrdered, Divisible, Capacity, Drained, FreeOp, GiveBack, Outstanding, Managed, InSpan;
    InvSeen(table, s, t, cpu, c);
  }

  // ---- runs of one thread ----

  ghost predicate StepOn(table: seq<SizeClass>, s: State, t: nat, cpu: nat, s': State)
    requires Runs(table)
  {
    exists arg: nat, os :: ThreadStep(table, s, t, cpu, arg, os, s')
  }

  /** Every step of the run is thread t's, on this CPU, and before the last it is inside a call. */
  ghost predicate Alone(table: seq<SizeClass>, states: seq<State>, t: nat, cpu: nat)
    requires Runs(table)
  {
    && states != [] && t < |states[0].threads|
    && forall i | 0 <= i < |states| - 1 ::
         && t < |states[i].threads| && !states[i].threads[t].pc.Idle?
         && StepOn(table, states[i], t, cpu, states[i + 1])
  }

  lemma AllocStep(table: seq<SizeClass>, v0: View, s: State, t: nat, cpu: nat, c: nat, arg: nat, os: Option<nat>,
                  s': State, b: seq<nat>) returns (b': seq<nat>)
    requires Runs(table) && Inv(table, s) && ThreadStep(table, s, t, cpu, arg, os, s') && 1 <= c < |table|
    requires InView(s, t, c) && v0.th.cls == c && !s.threads[t].pc.Idle?
    requires AllocPhase(table[c].batchSize, RoomOn(table, s, cpu, c), v0, ViewOf(s, t, cpu, c), b)
    ensures Inv(table, s') && Elsewhere(s, s', t, cpu, c) && InView(s', t, c)
    ensures AllocPhase(table[c].batchSize, RoomOn(table, s, cpu, c), v0, ViewOf(s', t, cpu, c), b')
  {
    WhichStep(table, s, t, cpu, arg, os, s');
    StepKeeps(table, s, t, cpu, arg, os, s');
    NoFault(table, s');
    hide Inv, Kept, PopStep, TakeCacheStep, TakeListStep, PickStep, PublishStep, DeliverStep, FillCacheStep,
         FindHomeStep, GiveHomeStep, Divisible, WellOrdered, Elsewhere, ThreadStep;
    hide Served, Allocated, Republishing, GivesBack, Came, ListKept;
    b' := b;
    match s.threads[t].pc
    case PopSlab => PopPhase(table, v0, s, t, cpu, c, s', b);
    case TakeCache => b' := TakeCachePhase(table, v0, s, t, cpu, c, s');
    case TakeList => b' := TakeListPhase(table, v0, s, t, cpu, c, os, s');
    case Pick => PickPhase(table, v0, s, t, cpu, c, s', b);
    case Publish => PublishPhase(table, v0, s, t, cpu, c, s', b);
    case FillCache => FillCachePhase(table, v0, s, t, cpu, c, s', b);
    case FindHome => HomePhase(table, v0, s, t, cpu, c, s', b);
    case GiveHome => HomePhase(table, v0, s, t, cpu, c, s', b);
    case Deliver => DeliverPhase(table, v0, s, t, cpu, c, s', b);
    case _ =>
  }

  lemma NoFault(table: seq<SizeClass>, s: State)
    requires Runs(table) && Inv(table, s)
    ensures !s.fault
  {
  }

  /** The class of a request, as the thread carries it. */
  lemma RequestSeen(table: seq<SizeClass>, s: State, t: nat)
    requires Runs(table) && Inv(table, s) && t < |s.threads| && s.threads[t].pc.PopSlab?
    ensures 1 <= s.threads[t].cls < |table| && s.threads[t].batch == [] && s.threads[t].op.Alloc?
    ensures InView(s, t, s.threads[t].cls)
  {
    hide Outside, Capacity, CachesOk, SlabsOk, Divisible, Counted, Lent, LeastClass;
    assert ThreadOk(table, s.cfls, s.threads[t]);
    SameLength(table, s);
  }

  lemma {:induction false} AllocPhases(table: seq<SizeClass>, states: seq<State>, t: nat, cpu: nat)
    returns (b: seq<nat>)
    requires Runs(table) && Alone(table, states, t, cpu) && Inv(table, states[0])
    requires states[0].threads[t].pc.PopSlab?
    ensures var s0, s, c := states[0], states[|states| - 1], states[0].threads[t].cls;
            && 1 <= c < |table| && Inv(table, s) && InView(s0, t, c) && InView(s, t, c) && Elsewhere(s0, s, t, cpu, c)
            && AllocPhase(table[c].batchSize, RoomOn(table, s0, cpu, c), ViewOf(s0, t, cpu, c), ViewOf(s, t, cpu, c), b)
    decreases |states|
  {
    hide Inv, Divisible, WellOrdered, Capacity, ThreadStep, Served, Allocated, Republishing, GivesBack, Came, ListKept;
    var n, c := |states| - 1, states[0].threads[t].cls;
    RequestSeen(table, states[0], t);
    if n == 0 {
      b := [];
    } else {
      b := AllocPhases(table, states[..n], t, cpu);
      assert StepOn(table, states[n - 1], t, cpu, states[n]);
      var arg: nat, os :| ThreadStep(table, states[n - 1], t, cpu, arg, os, states[n]);
      b := AllocStep(table, ViewOf(states[0], t, cpu, c), states[n - 1], t, cpu, c, arg, os, states[n], b);
      ElsewhereJoin(states[0], states[n - 1], states[n], t, cpu, c);
    }
  }

  /** An allocate that no other thread disturbs does what the call promises: the top of the stack goes out; else
      a batch comes off the cache, or from the list when that is empty, its last pointer goes out and the others go
      on the stack and, when that is full, on the cache; or null comes out, with stack and cache empty and the list
      spent. No other class, CPU or thread sees a change. */
  lemma AllocateAlone(table: seq<SizeClass>, states: seq<State>, t: nat, cpu: nat) returns (b: seq<nat>)
    requires Runs(table) && Alone(table, states, t, cpu) && Inv(table, states[0])
    requires states[0].threads[t].pc.PopSlab?
    ensures var s0, s, c := states[0], states[|states| - 1], states[0].threads[t].cls;
            && 1 <= c < |table| && InView(s0, t, c) && InView(s, t, c) && Elsewhere(s0, s, t, cpu, c)
            && (s.threads[t].pc.Idle? ==>
                  Allocated(table[c].batchSize, RoomOn(table, s0, cpu, c), ViewOf(s0, t, cpu, c), ViewOf(s, t, cpu, c),
                            b))
  {
    hide Inv, Runs, Elsewhere, Alone, Allocated;
    b := AllocPhases(table, states, t, cpu);
  }

  lemma FreeStep(table: seq<SizeClass>, v0: View, s: State, t: nat, cpu: nat, c: nat, arg: nat, os: Option<nat>,
                 s': State, p: nat)
    requires Runs(table) && Inv(table, s) && ThreadStep(table, s, t, cpu, arg, os, s') && 1 <= c < |table|
    requires InView(s, t, c) && !s.threads[t].pc.Idle? && (s.threads[t].pc.FindSpan? || s.threads[t].pc.ReadSize? ==>
                                                             Lent(s.cfls[c], p))
    requires FreePhase(table[c].batchSize, RoomOn(table, s, cpu, c), c, v0, ViewOf(s, t, cpu, c), p)
    ensures Inv(table, s') && Elsewhere(s, s', t, cpu, c) && InView(s', t, c)
    ensures s'.threads[t].pc.FindSpan? || s'.threads[t].pc.ReadSize? ==> Lent(s'.cfls[c], p)
    ensures FreePhase(table[c].batchSize, RoomOn(table, s, cpu, c), c, v0, ViewOf(s', t, cpu, c), p)
  {
    WhichStep(table, s, t, cpu, arg, os, s');
    StepKeeps(table, s, t, cpu, arg, os, s');
    NoFault(table, s');
    hide Inv, Kept, FindSpanStep, ReadSizeStep, PushStep, DrainStep, FillCacheStep, FindHomeStep, GiveHomeStep,
         Divisible, WellOrdered, Elsewhere, ThreadStep, Lent;
    hide Freed, Untaken, Draining, Retrying, SendsHome;
    var pc := s.threads[t].pc;
    if pc.FindSpan? || pc.ReadSize? {
      FindPhase(table, v0, s, t, cpu, c, s', p);
    } else {
      PastFind(table, s, t, cpu, s');
      match pc
      case PushSlab => PushPhase(table, v0, s, t, cpu, c, s', p);
      case PushAgain => PushPhase(table, v0, s, t, cpu, c, s', p);
      case Drain => DrainPhase(table, v0, s, t, cpu, c, s', p);
      case FillCache => FillPhase(table, v0, s, t, cpu, c, s', p);
      case FindHome => SendPhase(table, v0, s, t, cpu, c, s', p);
      case GiveHome => SendPhase(table, v0, s, t, cpu, c, s', p);
      case _ =>
    }
  }

  lemma PastFind(table: seq<SizeClass>, s: State, t: nat, cpu: nat, s': State)
    requires t < |s.threads| && Divisible(table)
    requires PushStep(table, s, t, cpu, s') || DrainStep(table, s, t, cpu, s') || FillCacheStep(s, t, s')
             || FindHomeStep(s, t, s') || GiveHomeStep(s, t, s')
    ensures t < |s'.threads|
    ensures !s'.fault ==> !s'.threads[t].pc.FindSpan? && !s'.threads[t].pc.ReadSize?
  {
    hide Divisible, SlabRoom, InSpan, Managed, FreeOp, GiveBack, Outstanding;
  }

  lemma {:induction false} FreePhases(table: seq<SizeClass>, states: seq<State>, t: nat, cpu: nat, c: nat, p: nat)
    requires Runs(table) && Alone(table, states, t, cpu) && Inv(table, states[0]) && 1 <= c < |table|
    requires states[0].threads[t].pc.FindSpan? && states[0].threads[t].hand == Some(p)
    requires c < |states[0].cfls| && Lent(states[0].cfls[c], p)
    ensures var s0, s := states[0], states[|states| - 1];
            && Inv(table, s) && InView(s0, t, c) && InView(s, t, c) && Elsewhere(s0, s, t, cpu, c)
            && FreePhase(table[c].batchSize, RoomOn(table, s0, cpu, c), c, ViewOf(s0, t, cpu, c), ViewOf(s, t, cpu, c),
                         p)
            && (s.threads[t].pc.FindSpan? || s.threads[t].pc.ReadSize? ==> Lent(s.cfls[c], p))
    decreases |states|
  {
    hide Inv, Divisible, WellOrdered, Capacity, ThreadStep, Freed, Draining, Retrying, SendsHome, Lent;
    var n := |states| - 1;
    InvSeen(table, states[0], t, cpu, c);
    if n == 0 {
      PointerSeen(table, states[0], t);
    } else {
      FreePhases(table, states[..n], t, cpu, c, p);
      assert StepOn(table, states[n - 1], t, cpu, states[n]);
      var arg: nat, os :| ThreadStep(table, states[n - 1], t, cpu, arg, os, states[n]);
      FreeStep(table, ViewOf(states[0], t, cpu, c), states[n - 1], t, cpu, c, arg, os, states[n], p);
      ElsewhereJoin(states[0], states[n - 1], states[n], t, cpu, c);
    }
  }

  lemma PointerSeen(table: seq<SizeClass>, s: State, t: nat)
    requires Runs(table) && Inv(table, s) && t < |s.threads| && s.threads[t].pc.FindSpan?
    ensures s.threads[t].batch == [] && s.threads[t].op.Free?
  {
    hide Outside, Capacity, CachesOk, SlabsOk, Divisible, Counted, Lent;
    assert ThreadOk(table, s.cfls, s.threads[t]);
  }

  /** A deallocate that no other thread disturbs does what the call promises, c being the class that lent p: p goes
      on the stack; when that was full, a batch came off it first, or all there was, to the cache as far as that had
      room and else to the list. No other class, CPU or thread sees a change. */
  lemma DeallocateAlone(table: seq<SizeClass>, states: seq<State>, t: nat, cpu: nat, p: nat) returns (c: nat)
    requires Runs(table) && Alone(table, states, t, cpu) && Inv(table, states[0])
    requires states[0].threads[t].pc.FindSpan? && states[0].threads[t].hand == Some(p)
    ensures 1 <= c < |table| && c < |states[0].cfls| && Lent(states[0].cfls[c], p)
    ensures var s0, s := states[0], states[|states| - 1];
            && InView(s0, t, c) && InView(s, t, c) && Elsewhere(s0, s, t, cpu, c)
            && (s.threads[t].pc.Idle? ==>
                  Freed(table[c].batchSize, RoomOn(table, s0, cpu, c), ViewOf(s0, t, cpu, c), ViewOf(s, t, cpu, c), p))
  {
    c := LentBy(table, states[0], t, p);
    hide Inv, Runs, Elsewhere, Alone, Freed, Lent;
    FreePhases(table, states, t, cpu, c, p);
  }

  lemma LentBy(table: seq<SizeClass>, s: State, t: nat, p: nat) returns (c: nat)
    requires Runs(table) && Inv(table, s) && t < |s.threads| && s.threads[t].hand == Some(p)
    ensures 1 <= c < |table| && c < |s.cfls| && Lent(s.cfls[c], p)
  {
    hide Outside, Capacity, CachesOk, SlabsOk, ThreadsOk, Divisible, Lent, Backed, WellOrdered;
    HeldOutside(s, t);
    assert LentAny(s.cfls, p);
    c :| c < |s.cfls| && Lent(s.cfls[c], p);
    LentClass(table, s.heap, s.cfls, c, p);
  }

  /** The class of no object lends nothing. */
  lemma LentClass(table: seq<SizeClass>, h: Heap, cfls: seq<Cfl>, c: nat, p: nat)
    requires Runs(table) && Backed(table, h, cfls) && c < |cfls| && Lent(cfls[c], p)
    ensures 1 <= c < |table|
  {
    hide Lends, Divisible, CflOk, SpansInUse;
    AllIndexed(table);
    var a: nat :| Lends(cfls[c], a, p);
    LendsPlace(table[c], cfls[c], h, a, p);
  }
}
