/** The locked sections of the central free lists, cut where they call the page heap: the page heap has
    its own lock, so calls of other lists may fall between a grant and the linking of the granted span,
    and between the unlinking of a span and its return. What such runs reach, the runs with whole
    sections reach too. */
module AllocatorSplit {
  import opened Widths
  import opened PageHeapSpec
  import opened PackedLists
  import opened CflSpec
  import opened CflLaws
  import opened CflMemory
  import opened SizeClasses
  import opened SlabLayout
  import opened AllocatorSteps
  import opened AllocatorLaws
  import opened AllocatorRuns
  import opened AllocatorSafety

  /** Who holds a list's lock in the middle of a section. */
  datatype Busy =
    | Fetching(t: nat, got: Option<nat>)   // the page heap has answered; the list is as it was
    | Returning(t: nat, was: Cfl)          // the list has let go of its span; `was` is the list before

  datatype Cut = Cut(s: State, busy: map<nat, Busy>)

  /** Thread t holds the lock of its class's list. */
  predicate Mid(f: Cut, t: nat)
    requires t < |f.s.threads|
  {
    f.s.threads[t].cls in f.busy && f.busy[f.s.threads[t].cls].t == t
  }

  /** The thread after its locked allocate. */
  ghost function AfterTake(table: seq<SizeClass>, th: Thread, c: Cfl, got: Option<nat>): Thread
    requires th.cls < |table| && CflOk(c) && (got.Some? ==> c.size > 0 && c.pages > 0)
  {
    var o := AllocateOp(c, got).1;
    var batch := if o.Some? then th.batch + [Address(o.value, c.size)] else th.batch;
    th.(batch := batch, pc := if o.None? || |batch| >= table[th.cls].batchSize then Pick else TakeList)
  }

  /** The thread after its locked deallocate. */
  function Freed(th: Thread): Thread
    requires th.batch != []
  {
    if th.batch[1..] == [] then Released(th) else th.(batch := th.batch[1..], pc := FindHome)
  }

  // ---- steps ----

  /** A section that does not ask the page heap. */
  ghost predicate TakeWhole(table: seq<SizeClass>, f: Cut, t: nat, os: Option<nat>, f': Cut)
    requires t < |f.s.threads|
  {
    var d := f.s.threads[t].cls;
    && f.s.threads[t].pc.TakeList? && d !in f.busy && d < |f.s.cfls| && !Asks(f.s.cfls[d])
    && TakesFromList(table, f.s, t, None, os, f'.s) && f'.busy == f.busy
  }

  /** The page heap answers. */
  ghost predicate Ask(f: Cut, t: nat, os: Option<nat>, f': Cut)
    requires t < |f.s.threads|
  {
    var d := f.s.threads[t].cls;
    && f.s.threads[t].pc.TakeList? && d !in f.busy && d < |f.s.cfls| && Asks(f.s.cfls[d])
    && exists got :: Granted(f.s.heap, f'.s.heap, f.s.cfls[d], got, os)
                     && f' == Cut(f.s.(heap := f'.s.heap), f.busy[d := Fetching(t, got)])
  }

  /** The list links what it was granted and takes an object. */
  ghost predicate Adopt(table: seq<SizeClass>, f: Cut, t: nat, f': Cut)
    requires t < |f.s.threads|
  {
    var th := f.s.threads[t];
    && Mid(f, t) && f.busy[th.cls].Fetching? && th.cls < |f.s.cfls| && th.cls < |table|
    && var c, got := f.s.cfls[th.cls], f.busy[th.cls].got;
       && CflOk(c) && (got.Some? ==> c.size > 0 && c.pages > 0)
       && f' == Cut(Update(f.s, t, AfterTake(table, th, c, got)).(cfls := f.s.cfls[th.cls := AllocateOp(c, got).0]),
                    f.busy - {th.cls})
  }

  /** The object thread t gives back completes its span. */
  ghost predicate Completes(s: State, t: nat)
    requires t < |s.threads|
  {
    var th := s.threads[t];
    && th.batch != [] && th.cls < |s.cfls|
    && var c := s.cfls[th.cls];
       var k := Position(c.spans, th.span);
       && k < |c.spans| && c.size > 0 && th.span * PAGE_SIZE <= th.batch[0] && InUse(s.heap, th.span)
       && Outstanding(c.spans[k], PtrToIndex(th.batch[0], th.span * PAGE_SIZE, c.size)) && Releases(c, k)
  }

  /** A section that returns no span. */
  ghost predicate GiveWhole(f: Cut, t: nat, f': Cut)
    requires t < |f.s.threads|
  {
    f.s.threads[t].cls !in f.busy && !Completes(f.s, t) && GiveHomeStep(f.s, t, f'.s) && f'.busy == f.busy
  }

  /** The list takes the object and lets go of its span. */
  ghost predicate LetGo(f: Cut, t: nat, f': Cut)
    requires t < |f.s.threads|
  {
    var th := f.s.threads[t];
    && th.pc.GiveHome? && th.cls !in f.busy && Completes(f.s, t)
    && var c := f.s.cfls[th.cls];
       f' == Cut(f.s.(cfls := f.s.cfls[th.cls := FreeOp(c, Position(c.spans, th.span),
                                                        PtrToIndex(th.batch[0], th.span * PAGE_SIZE, c.size))]),
                 f.busy[th.cls := Returning(t, c)])
  }

  /** The page heap takes the span back. */
  ghost predicate HandBack(f: Cut, t: nat, f': Cut)
    requires t < |f.s.threads|
  {
    var th := f.s.threads[t];
    && Mid(f, t) && f.busy[th.cls].Returning? && th.batch != [] && th.span in f.s.heap
    && f' == Cut(Update(f.s, t, Freed(th)).(heap := GiveBack(f.s.heap, th.span)), f.busy - {th.cls})
  }

  ghost predicate CutStep(table: seq<SizeClass>, f: Cut, t: nat, cpu: nat, arg: nat, os: Option<nat>, f': Cut)
    requires |table| >= 2 && Divisible(table)
  {
    t < |f.s.threads| && (
      || (!Mid(f, t) && OtherStep(table, f.s, t, cpu, arg, f'.s) && f'.busy == f.busy)
      || TakeWhole(table, f, t, os, f') || Ask(f, t, os, f') || Adopt(table, f, t, f')
      || GiveWhole(f, t, f') || LetGo(f, t, f') || HandBack(f, t, f'))
  }

  // ---- the state with whole sections ----

  /** List d once the section under way is through, if it is a fetch, or as it was before, if a return. */
  ghost function Whole(f: Cut, d: nat): Cfl
    requires d < |f.s.cfls|
  {
    var c := f.s.cfls[d];
    if d !in f.busy then c
    else match f.busy[d]
      case Fetching(t, got) => if CflOk(c) && (got.Some? ==> c.size > 0 && c.pages > 0) then AllocateOp(c, got).0 else c
      case Returning(t, was) => was
  }

  ghost function WholeThread(table: seq<SizeClass>, f: Cut, t: nat): Thread
    requires t < |f.s.threads|
  {
    var th := f.s.threads[t];
    if Mid(f, t) && f.busy[th.cls].Fetching? && th.cls < |f.s.cfls| && th.cls < |table| && CflOk(f.s.cfls[th.cls])
       && (f.busy[th.cls].got.Some? ==> f.s.cfls[th.cls].size > 0 && f.s.cfls[th.cls].pages > 0)
    then AfterTake(table, th, f.s.cfls[th.cls], f.busy[th.cls].got)
    else th
  }

  ghost function Cfls(f: Cut): (r: seq<Cfl>)
    ensures |r| == |f.s.cfls| && forall d | 0 <= d < |r| :: r[d] == Whole(f, d)
  {
    seq(|f.s.cfls|, d requires 0 <= d < |f.s.cfls| => Whole(f, d))
  }

  ghost function Threads(table: seq<SizeClass>, f: Cut): (r: seq<Thread>)
    ensures |r| == |f.s.threads| && forall t | 0 <= t < |r| :: r[t] == WholeThread(table, f, t)
  {
    seq(|f.s.threads|, t requires 0 <= t < |f.s.threads| => WholeThread(table, f, t))
  }

  ghost function Abstract(table: seq<SizeClass>, f: Cut): State {
    f.s.(cfls := Cfls(f), threads := Threads(table, f))
  }

  // ---- invariant ----

  /** What the holder of list d's lock is doing. */
  ghost predicate BusyOk(table: seq<SizeClass>, f: Cut, d: nat)
    requires d in f.busy
  {
    && d < |f.s.cfls| == |table| && f.busy[d].t < |f.s.threads| && f.s.threads[f.busy[d].t].cls == d
    && var th, c := f.s.threads[f.busy[d].t], f.s.cfls[d];
       match f.busy[d]
       case Fetching(t, got) =>
         th.pc.TakeList? && CflOk(c) && (got.Some? ==> Asks(c) && Position(c.spans, got.value) == |c.spans|)
       case Returning(t, was) =>
         && th.pc.GiveHome? && th.batch != [] && was.size > 0 && th.span * PAGE_SIZE <= th.batch[0]
         && var k, idx := Position(was.spans, th.span), PtrToIndex(th.batch[0], th.span * PAGE_SIZE, was.size);
            k < |was.spans| && Outstanding(was.spans[k], idx) && Releases(was, k) && c == FreeOp(was, k, idx)
  }

  ghost predicate CutInv(table: seq<SizeClass>, f: Cut)
    requires Runs(table)
  {
    Inv(table, Abstract(table, f)) && forall d | d in f.busy :: BusyOk(table, f, d)
  }

  // ---- the other steps ----

  function Swap(s: State, cfls: seq<Cfl>, threads: seq<Thread>): State {
    s.(cfls := cfls, threads := threads)
  }

  lemma LiftStart(table: seq<SizeClass>, s: State, t: nat, arg: nat, s': State, cfls: seq<Cfl>, threads: seq<Thread>)
    requires |table| >= 2 && t < |s.threads| == |threads| && threads[t] == s.threads[t]
    requires StartAlloc(table, s, t, arg, s') || PickStep(s, t, s') || DeliverStep(s, t, s')
    ensures t < |s'.threads|
    ensures var x, x' := Swap(s, cfls, threads), Swap(s', cfls, threads[t := s'.threads[t]]);
            StartAlloc(table, x, t, arg, x') || PickStep(x, t, x') || DeliverStep(x, t, x')
  {
    hide LeastClass;
  }

  lemma LiftPop(table: seq<SizeClass>, s: State, t: nat, cpu: nat, s': State, cfls: seq<Cfl>, threads: seq<Thread>)
    requires |table| >= 2 && Divisible(table) && t < |s.threads| == |threads| && threads[t] == s.threads[t]
    requires PopStep(s, t, cpu, s') || TakeCacheStep(table, s, t, s') || PublishStep(table, s, t, cpu, s')
    ensures t < |s'.threads|
    ensures var x, x' := Swap(s, cfls, threads), Swap(s', cfls, threads[t := s'.threads[t]]);
            PopStep(x, t, cpu, x') || TakeCacheStep(table, x, t, x') || PublishStep(table, x, t, cpu, x')
  {
    hide Capacity, Divisible;
  }

  lemma LiftFind(table: seq<SizeClass>, s: State, t: nat, arg: nat, s': State, cfls: seq<Cfl>, threads: seq<Thread>)
    requires |table| >= 2 && t < |s.threads| == |threads| && threads[t] == s.threads[t]
    requires || StartFree(s, t, arg, s') || FindSpanStep(s, t, s') || ReadSizeStep(table, s, t, s')
             || FindHomeStep(s, t, s')
    ensures t < |s'.threads|
    ensures var x, x' := Swap(s, cfls, threads), Swap(s', cfls, threads[t := s'.threads[t]]);
            || StartFree(x, t, arg, x') || FindSpanStep(x, t, x') || ReadSizeStep(table, x, t, x')
            || FindHomeStep(x, t, x')
  {
    hide SizeIndex, InSpan, Managed;
  }

  lemma LiftPush(table: seq<SizeClass>, s: State, t: nat, cpu: nat, s': State, cfls: seq<Cfl>, threads: seq<Thread>)
    requires Divisible(table) && t < |s.threads| == |threads| && threads[t] == s.threads[t]
    requires PushStep(table, s, t, cpu, s')
    ensures t < |s'.threads|
    ensures PushStep(table, Swap(s, cfls, threads), t, cpu, Swap(s', cfls, threads[t := s'.threads[t]]))
  {
    hide Capacity, Divisible;
  }

  lemma LiftDrain(table: seq<SizeClass>, s: State, t: nat, cpu: nat, s': State, cfls: seq<Cfl>, threads: seq<Thread>)
    requires t < |s.threads| == |threads| && threads[t] == s.threads[t]
    requires DrainStep(table, s, t, cpu, s') || FillCacheStep(s, t, s')
    ensures t < |s'.threads|
    ensures var x, x' := Swap(s, cfls, threads), Swap(s', cfls, threads[t := s'.threads[t]]);
            DrainStep(table, x, t, cpu, x') || FillCacheStep(x, t, x')
  {
  }

  /** A step that touches no list does not see them, nor the other threads. */
  lemma Lift(table: seq<SizeClass>, s: State, t: nat, cpu: nat, arg: nat, s': State, cfls: seq<Cfl>,
             threads: seq<Thread>)
    requires |table| >= 2 && Divisible(table) && OtherStep(table, s, t, cpu, arg, s')
    requires |s.threads| == |threads| && threads[t] == s.threads[t]
    ensures t < |s'.threads|
    ensures OtherStep(table, Swap(s, cfls, threads), t, cpu, arg, Swap(s', cfls, threads[t := s'.threads[t]]))
  {
    hide Divisible, StartAlloc, StartFree, PopStep, TakeCacheStep, PickStep, PublishStep, DeliverStep, FindSpanStep,
         ReadSizeStep, PushStep, DrainStep, FillCacheStep, FindHomeStep;
    if || StartFree(s, t, arg, s') || FindSpanStep(s, t, s') || ReadSizeStep(table, s, t, s')
       || FindHomeStep(s, t, s') {
      LiftFind(table, s, t, arg, s', cfls, threads);
    } else if PushStep(table, s, t, cpu, s') {
      LiftPush(table, s, t, cpu, s', cfls, threads);
    } else if DrainStep(table, s, t, cpu, s') || FillCacheStep(s, t, s') {
      LiftDrain(table, s, t, cpu, s', cfls, threads);
    } else if StartAlloc(table, s, t, arg, s') || PickStep(s, t, s') || DeliverStep(s, t, s') {
      LiftStart(table, s, t, arg, s', cfls, threads);
    } else {
      LiftPop(table, s, t, cpu, s', cfls, threads);
    }
  }

  /** Only the holder of a list's lock is in the middle of a section. */
  lemma Holder(table: seq<SizeClass>, f: Cut, d: nat)
    requires Runs(table) && CutInv(table, f) && d in f.busy
    ensures d < |f.s.cfls| == |table| && f.busy[d].t < |f.s.threads| && f.s.threads[f.busy[d].t].cls == d
    ensures Mid(f, f.busy[d].t)
  {
    hide Inv, Divisible;
    assert BusyOk(table, f, d);
  }

  lemma OtherRefines(table: seq<SizeClass>, f: Cut, t: nat, cpu: nat, arg: nat, f': Cut)
    requires Runs(table) && CutInv(table, f) && t < |f.s.threads| && !Mid(f, t)
    requires OtherStep(table, f.s, t, cpu, arg, f'.s) && f'.busy == f.busy
    ensures OtherStep(table, Abstract(table, f), t, cpu, arg, Abstract(table, f'))
    ensures forall d | d in f'.busy :: BusyOk(table, f', d)
  {
    hide Inv, Divisible, OtherStep, AfterTake, Releases, FreeOp, AllocateOp, CflOk;
    OtherSame(table, f.s, t, cpu, arg, f'.s);
    Lift(table, f.s, t, cpu, arg, f'.s, Cfls(f), Threads(table, f));
    forall d | d in f.busy
      ensures f.busy[d].t != t && BusyOk(table, f', d)
    {
      Holder(table, f, d);
      assert BusyOk(table, f, d);
    }
    assert Cfls(f') == Cfls(f);
    NotMid(table, f, t, f');
    assert Threads(table, f') == Threads(table, f)[t := f'.s.threads[t]];
    assert Abstract(table, f') == Swap(f'.s, Cfls(f), Threads(table, f)[t := f'.s.threads[t]]);
  }

  lemma NotMid(table: seq<SizeClass>, f: Cut, t: nat, f': Cut)
    requires t < |f.s.threads| == |f'.s.threads| && f'.busy == f.busy && forall d | d in f.busy :: f.busy[d].t != t
    ensures !Mid(f', t)
  {
  }

  // ---- sections that allocate ----

  lemma ListFit(table: seq<SizeClass>, f: Cut, d: nat)
    requires Runs(table) && CutInv(table, f) && d < |f.s.cfls| && d !in f.busy
    ensures |f.s.cfls| == |table| && CflOk(f.s.cfls[d]) && Whole(f, d) == f.s.cfls[d]
    ensures ValidHeap(f.s.heap) && ListOk(table[d], f.s.cfls[d], f.s.heap)
  {
    hide Outside, Capacity, CachesOk, SlabsOk, ThreadsOk, Divisible, Counted, CflOk, BusyOk;
    assert Abstract(table, f).cfls[d] == Whole(f, d);
  }

  /** Busy lists but d stay as they are, when only thread t and list d change. */
  lemma BusyStays(table: seq<SizeClass>, f: Cut, t: nat, d: nat, f': Cut)
    requires (forall e | e in f.busy :: BusyOk(table, f, e)) && t < |f.s.threads| == |f'.s.threads|
    requires |f'.s.cfls| == |f.s.cfls| && f.s.threads[t].cls == d
    requires forall u | 0 <= u < |f.s.threads| && u != t :: f'.s.threads[u] == f.s.threads[u]
    requires forall e | 0 <= e < |f.s.cfls| && e != d :: f'.s.cfls[e] == f.s.cfls[e]
    requires forall e | e in f'.busy && e != d :: e in f.busy && f'.busy[e] == f.busy[e]
    ensures forall e | e in f'.busy && e != d :: BusyOk(table, f', e)
  {
    hide CflOk, Releases, FreeOp;
    forall e | e in f'.busy && e != d
      ensures BusyOk(table, f', e)
    {
      assert BusyOk(table, f, e);
    }
  }

  /** So do the other lists and threads with their sections through. */
  lemma WholeStays(table: seq<SizeClass>, f: Cut, t: nat, d: nat, f': Cut)
    requires (forall e | e in f.busy :: BusyOk(table, f, e)) && t < |f.s.threads| == |f'.s.threads|
    requires |f'.s.cfls| == |f.s.cfls| == |table| && f.s.threads[t].cls == d == f'.s.threads[t].cls
    requires d in f.busy ==> f.busy[d].t == t
    requires forall u | 0 <= u < |f.s.threads| && u != t :: f'.s.threads[u] == f.s.threads[u]
    requires forall e | 0 <= e < |f.s.cfls| && e != d :: f'.s.cfls[e] == f.s.cfls[e]
    requires forall e | e != d :: (e in f'.busy <==> e in f.busy) && (e in f.busy ==> f'.busy[e] == f.busy[e])
    requires d in f'.busy ==> f'.busy[d].t == t
    ensures forall e | 0 <= e < |f.s.cfls| && e != d :: Whole(f', e) == Whole(f, e)
    ensures forall u | 0 <= u < |f.s.threads| && u != t :: WholeThread(table, f', u) == WholeThread(table, f, u)
    ensures d < |f.s.cfls| ==> Cfls(f') == Cfls(f)[d := Whole(f', d)]
    ensures Threads(table, f') == Threads(table, f)[t := WholeThread(table, f', t)]
  {
    hide CflOk, Releases, FreeOp, AllocateOp, AfterTake;
  }

  lemma TakeWholeRefines(table: seq<SizeClass>, f: Cut, t: nat, os: Option<nat>, f': Cut)
    requires Runs(table) && CutInv(table, f) && t < |f.s.threads| && TakeWhole(table, f, t, os, f')
    ensures TakeListStep(table, Abstract(table, f), t, os, Abstract(table, f'))
    ensures forall e | e in f'.busy :: BusyOk(table, f', e)
  {
    hide Inv, Divisible, CflOk, AllocateOp, Granted, Releases, FreeOp, BusyOk, Whole, WholeThread, Asks;
    var d := f.s.threads[t].cls;
    ListFit(table, f, d);
    BusyStays(table, f, t, d, f');
    WholeStays(table, f, t, d, f');
    NotBusy(table, f, t, d);
    NotBusy(table, f', t, d);
    assert TakesFromList(table, Abstract(table, f), t, None, os, Abstract(table, f'));
  }

  lemma NotBusy(table: seq<SizeClass>, f: Cut, t: nat, d: nat)
    requires t < |f.s.threads| && d < |f.s.cfls| && f.s.threads[t].cls == d && d !in f.busy
    ensures Whole(f, d) == f.s.cfls[d] && WholeThread(table, f, t) == f.s.threads[t]
  {
  }

  lemma IsFetching(table: seq<SizeClass>, f: Cut, t: nat, d: nat, got: Option<nat>)
    requires t < |f.s.threads| && d < |f.s.cfls| == |table| && f.s.threads[t].cls == d
    requires d in f.busy && f.busy[d] == Fetching(t, got) && CflOk(f.s.cfls[d])
    requires got.Some? ==> f.s.cfls[d].size > 0 && f.s.cfls[d].pages > 0
    ensures Whole(f, d) == AllocateOp(f.s.cfls[d], got).0
    ensures WholeThread(table, f, t) == AfterTake(table, f.s.threads[t], f.s.cfls[d], got)
  {
    hide CflOk, AllocateOp, AfterTake;
  }

  lemma AskRefines(table: seq<SizeClass>, f: Cut, t: nat, os: Option<nat>, f': Cut)
    requires Runs(table) && CutInv(table, f) && t < |f.s.threads| && Ask(f, t, os, f')
    ensures TakeListStep(table, Abstract(table, f), t, os, Abstract(table, f'))
    ensures forall e | e in f'.busy :: BusyOk(table, f', e)
  {
    hide Inv, Divisible, CflOk, AllocateOp, Granted, Releases, FreeOp, Whole, WholeThread, BusyOk, ListOk, ValidHeap;
    hide Asks, Position, Served;
    var d := f.s.threads[t].cls;
    var got :| Granted(f.s.heap, f'.s.heap, f.s.cfls[d], got, os)
               && f' == Cut(f.s.(heap := f'.s.heap), f.busy[d := Fetching(t, got)]);
    ListFit(table, f, d);
    AskedFor(f.s.heap, f'.s.heap, f.s.cfls[d], got, os);
    AllocatedList(table[d], f.s.heap, f'.s.heap, f.s.cfls[d], got, os);
    BusyStays(table, f, t, d, f');
    WholeStays(table, f, t, d, f');
    NotBusy(table, f, t, d);
    IsFetching(table, f', t, d, got);
    FetchingOk(table, f', d);
    assert TakesFromList(table, Abstract(table, f), t, got, os, Abstract(table, f'));
  }

  lemma AskedFor(h: Heap, h': Heap, c: Cfl, got: Option<nat>, os: Option<nat>)
    requires Granted(h, h', c, got, os)
    ensures got.Some? ==> Asks(c) && c.size > 0 && c.pages > 0
  {
  }

  lemma FetchingOk(table: seq<SizeClass>, f: Cut, d: nat)
    requires d in f.busy && f.busy[d].Fetching? && d < |f.s.cfls| == |table| && f.busy[d].t < |f.s.threads|
    requires f.s.threads[f.busy[d].t].cls == d && f.s.threads[f.busy[d].t].pc.TakeList? && CflOk(f.s.cfls[d])
    requires f.busy[d].got.Some? ==>
               Asks(f.s.cfls[d]) && Position(f.s.cfls[d].spans, f.busy[d].got.value) == |f.s.cfls[d].spans|
    ensures BusyOk(table, f, d)
  {
    hide CflOk;
  }

  lemma AdoptStutters(table: seq<SizeClass>, f: Cut, t: nat, f': Cut)
    requires Runs(table) && CutInv(table, f) && t < |f.s.threads| && Adopt(table, f, t, f')
    ensures Abstract(table, f') == Abstract(table, f)
    ensures forall e | e in f'.busy :: BusyOk(table, f', e)
  {
    hide Inv, Divisible, CflOk, AllocateOp, Releases, FreeOp, Whole, WholeThread;
    var d := f.s.threads[t].cls;
    assert BusyOk(table, f, d);
    hide BusyOk;
    BusyStays(table, f, t, d, f');
    WholeStays(table, f, t, d, f');
    IsFetching(table, f, t, d, f.busy[d].got);
    NotBusy(table, f', t, d);
    assert Cfls(f') == Cfls(f) && Threads(table, f') == Threads(table, f);
  }

  // ---- sections that deallocate ----

  lemma GiveWholeRefines(table: seq<SizeClass>, f: Cut, t: nat, f': Cut)
    requires Runs(table) && CutInv(table, f) && t < |f.s.threads| && GiveWhole(f, t, f')
    ensures GiveHomeStep(Abstract(table, f), t, Abstract(table, f'))
    ensures forall e | e in f'.busy :: BusyOk(table, f', e)
  {
    hide Inv, Divisible, CflOk, Releases, FreeOp, BusyOk, Whole, WholeThread, Outstanding, GiveBack, Completes;
    var d := f.s.threads[t].cls;
    ListFit(table, f, d);
    BusyStays(table, f, t, d, f');
    WholeStays(table, f, t, d, f');
    NotBusy(table, f, t, d);
    NotBusy(table, f', t, d);
  }

  lemma LetGoStutters(table: seq<SizeClass>, f: Cut, t: nat, f': Cut)
    requires Runs(table) && CutInv(table, f) && t < |f.s.threads| && LetGo(f, t, f')
    ensures Abstract(table, f') == Abstract(table, f)
    ensures forall e | e in f'.busy :: BusyOk(table, f', e)
  {
    hide Inv, Divisible, CflOk, Releases, FreeOp, Outstanding;
    var d := f.s.threads[t].cls;
    ListFit(table, f, d);
    NotBusy(table, f, t, d);
    assert BusyOk(table, f', d);
    hide BusyOk, Whole, WholeThread;
    BusyStays(table, f, t, d, f');
    WholeStays(table, f, t, d, f');
    IsReturning(table, f', t, d);
    assert Cfls(f') == Cfls(f) && Threads(table, f') == Threads(table, f);
  }

  lemma IsReturning(table: seq<SizeClass>, f: Cut, t: nat, d: nat)
    requires t < |f.s.threads| && d < |f.s.cfls| && f.s.threads[t].cls == d && d in f.busy && f.busy[d].Returning?
    ensures Whole(f, d) == f.busy[d].was && WholeThread(table, f, t) == f.s.threads[t]
  {
  }

  /** The span in hand is still in use. */
  lemma InHand(table: seq<SizeClass>, f: Cut, d: nat)
    requires Runs(table) && CutInv(table, f) && d in f.busy && f.busy[d].Returning?
    ensures f.busy[d].t < |f.s.threads| && InUse(f.s.heap, f.s.threads[f.busy[d].t].span)
  {
    hide Outside, Capacity, CachesOk, SlabsOk, ThreadsOk, Divisible, Counted, CflOk, Releases, FreeOp;
    assert BusyOk(table, f, d);
    var was := f.busy[d].was;
    assert Abstract(table, f).cfls[d] == was;
    ListsInUse(was, f.s.heap);
    assert Listed(was, f.s.threads[f.busy[d].t].span);
  }

  lemma HandBackRefines(table: seq<SizeClass>, f: Cut, t: nat, f': Cut)
    requires Runs(table) && CutInv(table, f) && t < |f.s.threads| && HandBack(f, t, f')
    ensures GiveHomeStep(Abstract(table, f), t, Abstract(table, f'))
    ensures forall e | e in f'.busy :: BusyOk(table, f', e)
  {
    hide Inv, Divisible, CflOk, Releases, FreeOp, Outstanding, Whole, WholeThread, GiveBack;
    var d := f.s.threads[t].cls;
    assert BusyOk(table, f, d);
    InHand(table, f, d);
    IsReturning(table, f, t, d);
    hide BusyOk;
    BusyStays(table, f, t, d, f');
    WholeStays(table, f, t, d, f');
    NotBusy(table, f', t, d);
  }

  // ---- runs ----

  /** Every step is a step with whole sections, or changes nothing of what they have done. */
  lemma CutRefines(table: seq<SizeClass>, f: Cut, t: nat, cpu: nat, arg: nat, os: Option<nat>, f': Cut)
    requires Runs(table) && CutInv(table, f) && CutStep(table, f, t, cpu, arg, os, f')
    ensures CutInv(table, f')
    ensures || ThreadStep(table, Abstract(table, f), t, cpu, arg, os, Abstract(table, f'))
            || Abstract(table, f') == Abstract(table, f)
  {
    hide Inv, Divisible, OtherStep, TakeWhole, Ask, Adopt, GiveWhole, LetGo, HandBack, BusyOk, TakeListStep,
         GiveHomeStep, Abstract;
    if TakeWhole(table, f, t, os, f') {
      TakeWholeRefines(table, f, t, os, f');
    } else if Ask(f, t, os, f') {
      AskRefines(table, f, t, os, f');
    } else if Adopt(table, f, t, f') {
      AdoptStutters(table, f, t, f');
    } else if GiveWhole(f, t, f') {
      GiveWholeRefines(table, f, t, f');
    } else if LetGo(f, t, f') {
      LetGoStutters(table, f, t, f');
    } else if HandBack(f, t, f') {
      HandBackRefines(table, f, t, f');
    } else {
      OtherRefines(table, f, t, cpu, arg, f');
    }
    if Abstract(table, f') != Abstract(table, f) {
      SameThreads(table, f);
      AsThreadStep(table, Abstract(table, f), t, cpu, arg, os, Abstract(table, f'));
      StepKeeps(table, Abstract(table, f), t, cpu, arg, os, Abstract(table, f'));
    }
  }

  lemma SameThreads(table: seq<SizeClass>, f: Cut)
    ensures |Abstract(table, f).threads| == |f.s.threads|
  {
  }

  lemma AsThreadStep(table: seq<SizeClass>, s: State, t: nat, cpu: nat, arg: nat, os: Option<nat>, s': State)
    requires |table| >= 2 && Divisible(table) && t < |s.threads|
    requires OtherStep(table, s, t, cpu, arg, s') || TakeListStep(table, s, t, os, s') || GiveHomeStep(s, t, s')
    ensures ThreadStep(table, s, t, cpu, arg, os, s')
  {
    hide Divisible, StartAlloc, StartFree, PopStep, TakeCacheStep, PickStep, PublishStep, DeliverStep, FindSpanStep,
         ReadSizeStep, PushStep, DrainStep, FillCacheStep, FindHomeStep, TakeListStep, GiveHomeStep;
  }

  ghost predicate CutNext(table: seq<SizeClass>, f: Cut, f': Cut)
    requires |table| >= 2 && Divisible(table)
  {
    exists t, cpu, arg, os :: CutStep(table, f, t, cpu, arg, os, f')
  }

  ghost predicate CutRun(table: seq<SizeClass>, fs: seq<Cut>)
    requires Runs(table)
  {
    && fs != [] && Init(table, fs[0].s) && fs[0].busy == map[]
    && forall i | 0 <= i < |fs| - 1 :: CutNext(table, fs[i], fs[i + 1])
  }

  lemma StartsWhole(table: seq<SizeClass>, f: Cut)
    requires f.busy == map[]
    ensures Abstract(table, f) == f.s
  {
    assert Cfls(f) == f.s.cfls && Threads(table, f) == f.s.threads;
  }

  /** Whatever a run with cut sections reaches, a run with whole ones reaches: the same but for the
      sections under way. */
  lemma {:induction false} CutRuns(table: seq<SizeClass>, fs: seq<Cut>) returns (states: seq<State>)
    requires Runs(table) && CutRun(table, fs)
    ensures Run(table, states) && states[|states| - 1] == Abstract(table, fs[|fs| - 1])
    ensures CutInv(table, fs[|fs| - 1])
    decreases |fs|
  {
    hide Init, Inv, CutStep, ThreadStep, Divisible, Abstract, BusyOk;
    var n := |fs| - 1;
    if n == 0 {
      StartsWhole(table, fs[0]);
      InitInv(table, fs[0].s);
      states := [fs[0].s];
    } else {
      states := CutRuns(table, fs[..n]);
      var f, f' := fs[n - 1], fs[n];
      assert CutNext(table, f, f');
      var t, cpu, arg, os :| CutStep(table, f, t, cpu, arg, os, f');
      CutRefines(table, f, t, cpu, arg, os, f');
      if Abstract(table, f') != Abstract(table, f) {
        assert Next(table, Abstract(table, f), Abstract(table, f'));
        states := states + [Abstract(table, f')];
      }
    }
  }

  /** So no lookup or section ever meets what it must not, cut sections or not. */
  lemma CutSafe(table: seq<SizeClass>, fs: seq<Cut>)
    requires Runs(table) && CutRun(table, fs)
    ensures !fs[|fs| - 1].s.fault && Inv(table, Abstract(table, fs[|fs| - 1]))
  {
    hide Divisible, BusyOk, CutRun;
    var states := CutRuns(table, fs);
  }

  // ---- what cut sections still do ----

  /** Nothing is lost by cutting: any step with whole sections is one step of the same thread, or two with the
      page heap's lock in between. */
  lemma WholeCuts(table: seq<SizeClass>, s: State, t: nat, cpu: nat, arg: nat, os: Option<nat>, s': State)
    returns (fs: seq<Cut>)
    requires Runs(table) && Inv(table, s) && ThreadStep(table, s, t, cpu, arg, os, s')
    ensures 2 <= |fs| <= 3 && fs[0] == Cut(s, map[]) && fs[|fs| - 1] == Cut(s', map[])
    ensures forall i | 0 <= i < |fs| - 1 :: CutStep(table, fs[i], t, cpu, arg, os, fs[i + 1])
  {
    hide Inv, Divisible, OtherStep, TakeWhole, Ask, Adopt, GiveWhole, LetGo, HandBack, TakeListStep, GiveHomeStep;
    if TakeListStep(table, s, t, os, s') {
      fs := TakeCuts(table, s, t, os, s');
    } else if GiveHomeStep(s, t, s') {
      fs := GiveCuts(table, s, t, s');
    } else {
      AsOther(table, s, t, cpu, arg, os, s');
      fs := [Cut(s, map[]), Cut(s', map[])];
      assert !Mid(fs[0], t);
    }
    assert CutStep(table, fs[0], t, cpu, arg, os, fs[1]);
    assert |fs| == 3 ==> CutStep(table, fs[1], t, cpu, arg, os, fs[2]);
  }

  lemma AsOther(table: seq<SizeClass>, s: State, t: nat, cpu: nat, arg: nat, os: Option<nat>, s': State)
    requires Runs(table) && ThreadStep(table, s, t, cpu, arg, os, s')
    requires !TakeListStep(table, s, t, os, s') && !GiveHomeStep(s, t, s')
    ensures t < |s.threads| && OtherStep(table, s, t, cpu, arg, s')
  {
    hide Divisible, StartAlloc, StartFree, PopStep, TakeCacheStep, PickStep, PublishStep, DeliverStep, FindSpanStep,
         ReadSizeStep, PushStep, DrainStep, FillCacheStep, FindHomeStep, TakeListStep, GiveHomeStep;
  }

  /** A locked allocate, with the page heap's answer in the middle when the list has to ask. */
  lemma TakeCuts(table: seq<SizeClass>, s: State, t: nat, os: Option<nat>, s': State) returns (fs: seq<Cut>)
    requires Runs(table) && Inv(table, s) && t < |s.threads| && TakeListStep(table, s, t, os, s')
    ensures 2 <= |fs| <= 3 && fs[0] == Cut(s, map[]) && fs[|fs| - 1] == Cut(s', map[])
    ensures |fs[1].s.threads| == |s.threads|
    ensures if |fs| == 2 then TakeWhole(table, fs[0], t, os, fs[1])
            else Ask(fs[0], t, os, fs[1]) && Adopt(table, fs[1], t, fs[2])
  {
    hide Inv, Divisible, CflOk, AllocateOp, Asks, Granted, WellOrdered;
    var got :| TakesFromList(table, s, t, got, os, s');
    var d := s.threads[t].cls;
    var c := s.cfls[d];
    AskedFor(s.heap, s'.heap, c, got, os);
    var f, f' := Cut(s, map[]), Cut(s', map[]);
    if Asks(c) {
      var f1 := Cut(s.(heap := s'.heap), map[d := Fetching(t, got)]);
      fs := [f, f1, f'];
      assert f1 == Cut(f.s.(heap := f1.s.heap), f.busy[d := Fetching(t, got)]);
      assert f1.busy - {d} == map[];
    } else {
      assert got.None?;
      fs := [f, f'];
    }
  }

  /** A locked deallocate, with the return of the span after it when it completes one. */
  lemma GiveCuts(table: seq<SizeClass>, s: State, t: nat, s': State) returns (fs: seq<Cut>)
    requires Runs(table) && Inv(table, s) && t < |s.threads| && GiveHomeStep(s, t, s')
    ensures 2 <= |fs| <= 3 && fs[0] == Cut(s, map[]) && fs[|fs| - 1] == Cut(s', map[])
    ensures |fs[1].s.threads| == |s.threads|
    ensures if |fs| == 2 then GiveWhole(fs[0], t, fs[1]) else LetGo(fs[0], t, fs[1]) && HandBack(fs[1], t, fs[2])
  {
    hide Inv, Divisible, CflOk, Releases, FreeOp, Outstanding, GiveBack, WellOrdered;
    var f, f' := Cut(s, map[]), Cut(s', map[]);
    if Completes(s, t) {
      var th := s.threads[t];
      var c := s.cfls[th.cls];
      var idx := PtrToIndex(th.batch[0], th.span * PAGE_SIZE, c.size);
      var f1 := Cut(s.(cfls := s.cfls[th.cls := FreeOp(c, Position(c.spans, th.span), idx)]),
                    map[th.cls := Returning(t, c)]);
      fs := [f, f1, f'];
      assert f1.busy == f.busy[th.cls := Returning(t, c)] && f1.busy - {th.cls} == map[];
    } else {
      fs := [f, f'];
    }
  }

  /** And a thread in the middle of a section can always finish it. */
  lemma SectionEnds(table: seq<SizeClass>, f: Cut, t: nat)
    requires Runs(table) && CutInv(table, f) && t < |f.s.threads| && Mid(f, t)
    ensures exists f' :: (Adopt(table, f, t, f') || HandBack(f, t, f')) && f'.busy == f.busy - {f.s.threads[t].cls}
  {
    hide Inv, Divisible, CflOk, Releases, FreeOp, AllocateOp, Outstanding, GiveBack, Position, WellOrdered;
    var th := f.s.threads[t];
    var d := th.cls;
    assert BusyOk(table, f, d);
    match f.busy[d]
    case Fetching(u, got) =>
      var c := f.s.cfls[d];
      var f' := Cut(Update(f.s, t, AfterTake(table, th, c, got)).(cfls := f.s.cfls[d := AllocateOp(c, got).0]),
                    f.busy - {d});
      assert Adopt(table, f, t, f');
    case Returning(u, was) =>
      InHand(table, f, d);
      var f' := Cut(Update(f.s, t, Freed(th)).(heap := GiveBack(f.s.heap, th.span)), f.busy - {d});
      assert HandBack(f, t, f');
  }

  /** Span a is in the hands of a thread between a list's lock and the page heap's. */
  ghost predicate InHands(f: Cut, d: nat, a: nat) {
    && d in f.busy && f.busy[d].t < |f.s.threads|
    && match f.busy[d]
       case Fetching(t, got) => got == Some(a)
       case Returning(t, was) => f.s.threads[t].span == a
  }

  /** Every span in use is on a list, or in the hands of a thread in the middle of a section. */
  lemma SpansHome(table: seq<SizeClass>, f: Cut, a: nat)
    requires Runs(table) && CutInv(table, f) && InUse(f.s.heap, a)
    ensures HasHome(f.s.cfls, a) || exists d: nat :: InHands(f, d, a)
  {
    hide Outside, Capacity, CachesOk, SlabsOk, ThreadsOk, Divisible, Counted, CflOk, Releases, FreeOp, AllocateOp;
    hide Listed;
    assert HasHome(Abstract(table, f).cfls, a);
    var d: nat :| d < |f.s.cfls| && Listed(Whole(f, d), a);
    if d in f.busy {
      assert BusyOk(table, f, d);
      var c := f.s.cfls[d];
      match f.busy[d]
      case Fetching(t, got) =>
        AllocateListed(c, got, a);
        assert InHands(f, d, a) || Listed(c, a);
      case Returning(t, was) =>
        assert Abstract(table, f).cfls[d] == was;
        var th := f.s.threads[t];
        FreeListed(was, Position(was.spans, th.span), PtrToIndex(th.batch[0], th.span * PAGE_SIZE, was.size), a);
        assert InHands(f, d, a) || Listed(c, a);
    }
  }
}
