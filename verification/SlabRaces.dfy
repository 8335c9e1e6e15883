/** The plain push and pop of the per-CPU slabs (slabs.hpp), which run where restartable sections are
    missing and on CPUs the sections give up on. Nothing restarts them: other threads' accesses to the same
    slab may fall between theirs. */
module PlainSteps {
  import opened Widths
  import opened SizeClasses
  import opened SlabLayout
  import opened RseqSteps

  /** Where a plain call is; each name is the access it makes next. */
  datatype PlainPc =
    | Rest
    | Load      // read the class's count
    | Touch     // pop: read the top pointer; push: store the pointer above the top
    | Store     // store the new count
    | Return

  /** A plain call: the CPU it read at its start, and its registers. */
  datatype Plain = Plain(op: Op, cls: nat, pc: PlainPc, cpu: nat, cur: nat, top: nat)

  /** Threads in restartable sections and threads in plain calls, over the same slabs. */
  datatype Mixed = Mixed(fast: State, plain: seq<Plain>)

  /** A plain call seen as a section that runs on its CPU. */
  function AsThread(pl: Plain): Thread {
    Thread(Some(pl.cpu), pl.op, pl.cls, Commit, pl.cpu, pl.cur, pl.top)
  }

  /** The slabs after a push stores its pointer. */
  ghost function Touched(table: seq<SizeClass>, slabs: seq<CpuSlab>, th: Thread): seq<CpuSlab>
    requires Divisible(table) && th.cls < |table| && th.cpu < |slabs| && 0 <= Slot(table, th) < |slabs[th.cpu].pointers|
  {
    if th.op.Pop? then slabs
    else
      var sl := slabs[th.cpu];
      slabs[th.cpu := sl.(pointers := sl.pointers[Slot(table, th) := th.op.ptr])]
  }

  /** The slabs after an operation stores the new count. */
  ghost function Stored(slabs: seq<CpuSlab>, th: Thread): seq<CpuSlab>
    requires th.cpu < |slabs| && th.cls < |slabs[th.cpu].counts| && (th.op.Pop? ==> th.cur > 0)
  {
    var sl := slabs[th.cpu];
    slabs[th.cpu := sl.(counts := sl.counts[th.cls := if th.op.Pop? then th.cur - 1 else th.cur + 1])]
  }

  /** Every start, load, store and return of thread t's plain call; `cpu` is what the start reads. */
  ghost predicate PlainStep(table: seq<SizeClass>, m: Mixed, t: nat, cpu: nat, op: Op, c: nat, m': Mixed)
    requires Divisible(table)
  {
    && t < |m.plain|
    && var pl, slabs := m.plain[t], m.fast.slabs;
       match pl.pc
       case Rest =>
         c < |table|
         && m' == if cpu < |slabs| then m.(plain := m.plain[t := Plain(op, c, Load, cpu, 0, 0)]) else m
       case Load =>
         && pl.cls < |table| && pl.cpu < |slabs| && pl.cls < |slabs[pl.cpu].counts|
         && var pl1 := pl.(cur := slabs[pl.cpu].counts[pl.cls]);
            m' == m.(plain := m.plain[t := pl1.(pc := if Refused(table, AsThread(pl1)) then Rest else Touch)])
       case Touch =>
         && pl.cls < |table| && pl.cpu < |slabs|
         && var i := Slot(table, AsThread(pl));
            && 0 <= i < |slabs[pl.cpu].pointers|
            && var top := if pl.op.Pop? then slabs[pl.cpu].pointers[i] else pl.top;
               m' == Mixed(m.fast.(slabs := Touched(table, slabs, AsThread(pl))),
                           m.plain[t := pl.(top := top, pc := Store)])
       case Store =>
         && pl.cpu < |slabs| && pl.cls < |slabs[pl.cpu].counts| && (pl.op.Pop? ==> pl.cur > 0)
         && m' == Mixed(m.fast.(slabs := Stored(slabs, AsThread(pl))), m.plain[t := pl.(pc := Return)])
       case Return =>
         m' == Mixed(if pl.op.Pop? then m.fast.(popped := m.fast.popped + multiset{pl.top})
                     else m.fast.(pushed := m.fast.pushed + multiset{pl.op.ptr}),
                     m.plain[t := pl.(pc := Rest)])
  }

  ghost predicate FastStep(table: seq<SizeClass>, m: Mixed, t: nat, cpu: nat, op: Op, c: nat, m': Mixed)
    requires Divisible(table)
  {
    ThreadStep(table, m.fast, t, cpu, op, c, m'.fast) && m'.plain == m.plain
  }

  ghost predicate MixedStep(table: seq<SizeClass>, m: Mixed, t: nat, cpu: nat, op: Op, c: nat, m': Mixed)
    requires Divisible(table)
  {
    FastStep(table, m, t, cpu, op, c, m') || PlainStep(table, m, t, cpu, op, c, m')
  }

  ghost predicate MixedInit(table: seq<SizeClass>, m: Mixed)
    requires Divisible(table)
  {
    Init(table, m.fast) && forall t | 0 <= t < |m.plain| :: m.plain[t].pc.Rest?
  }
}

/** What interleaved plain calls keep and what they break. */
module SlabRaces {
  import opened Counting
  import opened Widths
  import opened SizeClasses
  import opened SlabLayout
  import opened RseqSteps
  import opened RseqLaws
  import opened PlainSteps

  // ---- one store ----

  ghost function On(table: seq<SizeClass>, slabs: seq<CpuSlab>, p: nat): nat
    requires Divisible(table) && Shaped(table, slabs)
  {
    Sum(InSlabs(Stacks(table, slabs), p))
  }

  /** An operation about to touch its slot or store its count: what it loaded was fit then. */
  ghost predicate Loaded(table: seq<SizeClass>, slabs: seq<CpuSlab>, th: Thread)
    requires Divisible(table)
  {
    th.cls < |table| && th.cpu < |slabs| && th.cur <= Capacity(table, th.cls) && !Refused(table, th)
  }

  /** What it loaded, and read or wrote in its slot, is still there. */
  ghost predicate StillThere(table: seq<SizeClass>, slabs: seq<CpuSlab>, th: Thread)
    requires Divisible(table) && Shaped(table, slabs) && Loaded(table, slabs, th)
  {
    LoadedSlot(table, slabs, th);
    && slabs[th.cpu].counts[th.cls] == th.cur
    && slabs[th.cpu].pointers[Slot(table, th)] == if th.op.Pop? then th.top else th.op.ptr
  }

  lemma LoadedSlot(table: seq<SizeClass>, slabs: seq<CpuSlab>, th: Thread)
    requires Divisible(table) && Shaped(table, slabs) && Loaded(table, slabs, th)
    ensures Offset(table, th.cls) <= Slot(table, th) < Offset(table, th.cls) + Capacity(table, th.cls)
            <= |slabs[th.cpu].pointers|
    ensures th.cls < |slabs[th.cpu].counts| && (th.op.Pop? ==> th.cur > 0)
  {
    hide Offset, Capacity;
    SlicesApart(table, th.cls, |table|);
  }

  /** How often the operation's pointer is p. */
  ghost function Moves(th: Thread, p: nat): nat {
    if p == (if th.op.Pop? then th.top else th.op.ptr) then 1 else 0
  }

  lemma SameCounts(s: seq<nat>, t: seq<nat>)
    requires forall p: nat :: Count(s, p) == Count(t, p)
    ensures multiset(s) == multiset(t) && |s| == |t|
  {
    forall p: nat
      ensures multiset(s)[p] == multiset(t)[p]
    {
      assert Count(s, p) == Count(t, p);
    }
    assert |multiset(s)| == |s| && |multiset(t)| == |t|;
  }

  /** A prefix of the slots and one pointer have the counts of another prefix only if that is longer by
      one and ends with that pointer. */
  lemma PrefixExact(slots: seq<nat>, n: nat, k: nat, q: nat)
    requires n <= |slots| && k <= |slots|
    ensures (forall p: nat :: Count(slots[..k], p) + (if q == p then 1 else 0) == Count(slots[..n], p))
            <==> n == k + 1 && slots[k] == q
  {
    hide Count;
    forall p: nat
      ensures Count(slots[..k] + [q], p) == Count(slots[..k], p) + if q == p then 1 else 0
    {
      CountJoin(slots[..k], [q], p);
      CountOne(q, p);
    }
    if n == k + 1 {
      assert slots[..n] == slots[..k] + [slots[k]];
      CountJoin(slots[..k], [slots[k]], q);
      CountOne(slots[k], q);
    } else if forall p: nat :: Count(slots[..k], p) + (if q == p then 1 else 0) == Count(slots[..n], p) {
      SameCounts(slots[..k] + [q], slots[..n]);
    }
  }

  lemma SliceFits(table: seq<SizeClass>, c: nat)
    requires Divisible(table) && c < |table|
    ensures Offset(table, c) + Capacity(table, c) <= Offset(table, |table|)
  {
    hide Offset, Capacity;
    SlicesApart(table, c, |table|);
  }

  /** The slots of a class, from the bottom of its stack. */
  ghost function Slots(table: seq<SizeClass>, sl: CpuSlab, c: nat): seq<nat>
    requires Divisible(table) && SlabShape(table, sl) && c < |table|
  {
    SliceFits(table, c);
    sl.pointers[Offset(table, c)..Offset(table, c) + Capacity(table, c)]
  }

  lemma SubPrefix(s: seq<nat>, at: nat, n: nat, k: nat)
    requires at + n <= |s| && k <= n
    ensures s[at..at + n][..k] == s[at..at + k]
  {
  }

  lemma SlotsPrefix(table: seq<SizeClass>, sl: CpuSlab, c: nat, k: nat)
    requires Divisible(table) && SlabShape(table, sl) && c < |table| && k <= Capacity(table, c)
    ensures Offset(table, c) + k <= |sl.pointers| && k <= |Slots(table, sl, c)| == Capacity(table, c)
    ensures sl.pointers[Offset(table, c)..Offset(table, c) + k] == Slots(table, sl, c)[..k]
  {
    hide Offset, Capacity;
    SliceFits(table, c);
    SubPrefix(sl.pointers, Offset(table, c), Capacity(table, c), k);
  }

  lemma SlotsLaws(table: seq<SizeClass>, sl: CpuSlab, c: nat)
    requires Divisible(table) && SlabShape(table, sl) && c < |table|
    ensures |Slots(table, sl, c)| == Capacity(table, c) && sl.counts[c] <= |Slots(table, sl, c)|
    ensures StackOf(table, sl, c) == Slots(table, sl, c)[..sl.counts[c]]
  {
    hide Offset, Capacity, Slots;
    SlotsPrefix(table, sl, c, sl.counts[c]);
  }

  /** What a stored count does to the counts of pointers. */
  lemma StoreCounts(table: seq<SizeClass>, slabs: seq<CpuSlab>, th: Thread, p: nat)
    requires Divisible(table) && Shaped(table, slabs) && Loaded(table, slabs, th)
    ensures th.cls < |slabs[th.cpu].counts| && (th.op.Pop? ==> th.cur > 0)
    ensures Shaped(table, Stored(slabs, th))
    ensures var slots, n := Slots(table, slabs[th.cpu], th.cls), slabs[th.cpu].counts[th.cls];
            var n' := if th.op.Pop? then th.cur - 1 else th.cur + 1;
            && n <= |slots| && n' <= |slots|
            && On(table, Stored(slabs, th), p) + Count(slots[..n], p) == On(table, slabs, p) + Count(slots[..n'], p)
  {
    hide Offset, Capacity, Divisible, Sum, InSlabs, Count, SlabStacks, Stacks;
    LoadedSlot(table, slabs, th);
    var x, c, sl := th.cpu, th.cls, slabs[th.cpu];
    var n': nat := if th.op.Pop? then th.cur - 1 else th.cur + 1;
    StoreFits(table, th);
    SlotsLaws(table, sl, c);
    StoreCount(table, sl, c, n');
    StacksReplace(table, slabs, x, sl.(counts := sl.counts[c := n']));
    SlotsPrefix(table, sl, c, n');
    StackUpdate(Stacks(table, slabs), x, c, Slots(table, sl, c)[..n'], p);
  }

  lemma StoreFits(table: seq<SizeClass>, th: Thread)
    requires Divisible(table) && th.cls < |table| && th.cur <= Capacity(table, th.cls) && !Refused(table, th)
    ensures if th.op.Pop? then 0 < th.cur <= Capacity(table, th.cls) else th.cur + 1 <= Capacity(table, th.cls)
  {
  }

  /** Storing a count moves exactly the operation's pointer on or off the stack if and only if what the
      operation loaded, and read or wrote, is still there. Either way the slabs keep their shape. */
  lemma StoreExact(table: seq<SizeClass>, slabs: seq<CpuSlab>, th: Thread)
    requires Divisible(table) && Shaped(table, slabs) && Loaded(table, slabs, th)
    ensures th.cls < |slabs[th.cpu].counts| && (th.op.Pop? ==> th.cur > 0)
    ensures var slabs' := Stored(slabs, th);
            && Shaped(table, slabs')
            && ((forall p: nat :: if th.op.Pop? then On(table, slabs', p) + Moves(th, p) == On(table, slabs, p)
                                  else On(table, slabs', p) == On(table, slabs, p) + Moves(th, p))
                <==> StillThere(table, slabs, th))
  {
    hide Offset, Capacity, Divisible, SlabShape, Shaped, On, Count, Slots, Stored;
    LoadedSlot(table, slabs, th);
    SlotAt(table, slabs, th);
    SlotsLaws(table, slabs[th.cpu], th.cls);
    var slots, n := Slots(table, slabs[th.cpu], th.cls), slabs[th.cpu].counts[th.cls];
    StoreCounts(table, slabs, th, 0);
    forall p: nat { StoreCounts(table, slabs, th, p); }
    if th.op.Pop? {
      PrefixExact(slots, n, th.cur - 1, th.top);
    } else {
      PrefixExact(slots, th.cur + 1, n, th.op.ptr);
    }
  }

  lemma SlotAt(table: seq<SizeClass>, slabs: seq<CpuSlab>, th: Thread)
    requires Divisible(table) && Shaped(table, slabs) && Loaded(table, slabs, th)
    ensures SlabShape(table, slabs[th.cpu])
    ensures var slots, k := Slots(table, slabs[th.cpu], th.cls), if th.op.Pop? then th.cur - 1 else th.cur;
            && 0 <= k < |slots| && 0 <= Slot(table, th) < |slabs[th.cpu].pointers|
            && slots[k] == slabs[th.cpu].pointers[Slot(table, th)]
  {
    hide Offset, Capacity;
    LoadedSlot(table, slabs, th);
    SlotsLaws(table, slabs[th.cpu], th.cls);
    StoreFits(table, th);
  }

  // ---- one touch ----

  /** The slot a push writes is above the stack, or holds that very pointer already. */
  ghost predicate SlotSpare(table: seq<SizeClass>, slabs: seq<CpuSlab>, th: Thread)
    requires Divisible(table) && Shaped(table, slabs) && Loaded(table, slabs, th)
  {
    LoadedSlot(table, slabs, th);
    || th.op.Pop? || slabs[th.cpu].counts[th.cls] <= th.cur
    || slabs[th.cpu].pointers[Slot(table, th)] == th.op.ptr
  }

  lemma InsideOne(table: seq<SizeClass>, sl: CpuSlab, c: nat, k: nat, q: nat, d: nat)
    requires Divisible(table) && SlabShape(table, sl) && c < |table| && d < |table| && k < sl.counts[c]
    ensures Offset(table, c) + k < |sl.pointers|
    ensures var sl' := sl.(pointers := sl.pointers[Offset(table, c) + k := q]);
            && SlabShape(table, sl')
            && StackOf(table, sl', d) == if d == c then StackOf(table, sl, c)[k := q] else StackOf(table, sl, d)
  {
    hide Offset, Capacity, Divisible;
    SlicesApart(table, c, |table|);
    SlicesApart(table, d, |table|);
    if d != c { SlicesDisjoint(table, c, d); }
  }

  /** Storing inside a stack replaces one pointer of it. */
  lemma Inside(table: seq<SizeClass>, sl: CpuSlab, c: nat, k: nat, q: nat)
    requires Divisible(table) && SlabShape(table, sl) && c < |table| && k < sl.counts[c]
    ensures Offset(table, c) + k < |sl.pointers|
    ensures var sl' := sl.(pointers := sl.pointers[Offset(table, c) + k := q]);
            && SlabShape(table, sl')
            && SlabStacks(table, sl') == SlabStacks(table, sl)[c := StackOf(table, sl, c)[k := q]]
  {
    hide Offset, Capacity, Divisible, SlabShape, StackOf;
    InsideOne(table, sl, c, k, q, c);
    forall d | 0 <= d < |table|
      ensures StackOf(table, sl.(pointers := sl.pointers[Offset(table, c) + k := q]), d)
              == if d == c then StackOf(table, sl, c)[k := q] else StackOf(table, sl, d)
    {
      InsideOne(table, sl, c, k, q, d);
    }
  }

  lemma ReplaceExact(s: seq<nat>, k: nat, q: nat)
    requires k < |s|
    ensures (forall p: nat :: Count(s[k := q], p) == Count(s, p)) <==> s[k] == q
  {
    assert multiset(s[k := q]) == multiset(s) - multiset{s[k]} + multiset{q};
    if s[k] != q {
      assert Count(s[k := q], q) == Count(s, q) + 1;
    } else {
      assert s[k := q] == s;
    }
  }

  /** Storing the pointer of a push changes what the stacks hold if and only if the slot is not spare.
      Either way the slabs keep their shape. */
  lemma TouchExact(table: seq<SizeClass>, slabs: seq<CpuSlab>, th: Thread)
    requires Divisible(table) && Shaped(table, slabs) && Loaded(table, slabs, th) && th.op.Push?
    ensures 0 <= Slot(table, th) < |slabs[th.cpu].pointers|
    ensures var slabs' := Touched(table, slabs, th);
            && Shaped(table, slabs')
            && ((forall p: nat :: On(table, slabs', p) == On(table, slabs, p)) <==> SlotSpare(table, slabs, th))
  {
    hide Offset, Capacity, Divisible, SlabShape, SlabStacks, Stacks, Count, Sum, InSlabs, StackOf;
    LoadedSlot(table, slabs, th);
    ShapeAt(table, slabs, th.cpu);
    var x, c, sl, i: nat, q := th.cpu, th.cls, slabs[th.cpu], Slot(table, th), th.op.ptr;
    var sl' := sl.(pointers := sl.pointers[i := q]);
    if sl.counts[c] <= th.cur {
      StoreAbove(table, sl, c, i, q);
      StacksReplace(table, slabs, x, sl');
      assert Stacks(table, slabs)[x := SlabStacks(table, sl)] == Stacks(table, slabs);
    } else {
      var stack := StackOf(table, sl, c);
      Inside(table, sl, c, th.cur, q);
      StacksReplace(table, slabs, x, sl');
      InStack(table, sl, c, th.cur);
      ReplaceExact(stack, th.cur, q);
      forall p: nat
        ensures On(table, slabs[x := sl'], p) + Count(stack, p) == On(table, slabs, p) + Count(stack[th.cur := q], p)
      {
        StackUpdate(Stacks(table, slabs), x, c, stack[th.cur := q], p);
      }
    }
  }

  lemma ShapeAt(table: seq<SizeClass>, slabs: seq<CpuSlab>, x: nat)
    requires Divisible(table) && Shaped(table, slabs) && x < |slabs|
    ensures SlabShape(table, slabs[x])
  {
  }

  lemma InStack(table: seq<SizeClass>, sl: CpuSlab, c: nat, k: nat)
    requires Divisible(table) && SlabShape(table, sl) && c < |table| && k < sl.counts[c]
    ensures Offset(table, c) + k < |sl.pointers| && StackOf(table, sl, c)[k] == sl.pointers[Offset(table, c) + k]
  {
    SlicesApart(table, c, |table|);
  }

  // ---- the machine ----

  ghost predicate FastFits(table: seq<SizeClass>, slabs: seq<CpuSlab>, th: Thread)
    requires Divisible(table)
  {
    && (!th.pc.Idle? ==> th.cls < |table|)
    && (InSection(th.pc) ==> th.cpu < |slabs|)
    && (th.pc.CheckCpu? ==> th.cur <= Capacity(table, th.cls))
    && (th.pc.Access? || th.pc.Commit? ==> Loaded(table, slabs, th))
  }

  ghost predicate PlainFits(table: seq<SizeClass>, slabs: seq<CpuSlab>, pl: Plain)
    requires Divisible(table)
  {
    && (!pl.pc.Rest? ==> pl.cls < |table| && pl.cpu < |slabs|)
    && (pl.pc.Touch? || pl.pc.Store? ==> Loaded(table, slabs, AsThread(pl)))
  }

  /** Counts stay inside their slices, whatever races. */
  ghost predicate Fit(table: seq<SizeClass>, m: Mixed)
    requires Divisible(table)
  {
    && Shaped(table, m.fast.slabs)
    && (forall t | 0 <= t < |m.fast.threads| :: FastFits(table, m.fast.slabs, m.fast.threads[t]))
    && forall t | 0 <= t < |m.plain| :: PlainFits(table, m.fast.slabs, m.plain[t])
  }

  ghost function PlainPops(plain: seq<Plain>, p: nat): (r: seq<nat>)
    ensures |r| == |plain| && forall t | 0 <= t < |r| :: r[t] == PlainPop(plain[t], p)
  {
    seq(|plain|, t requires 0 <= t < |plain| => PlainPop(plain[t], p))
  }

  ghost function PlainPushes(plain: seq<Plain>, p: nat): (r: seq<nat>)
    ensures |r| == |plain| && forall t | 0 <= t < |r| :: r[t] == PlainPush(plain[t], p)
  {
    seq(|plain|, t requires 0 <= t < |plain| => PlainPush(plain[t], p))
  }

  ghost function PlainPop(pl: Plain, p: nat): nat {
    if pl.pc.Return? && pl.op.Pop? && pl.top == p then 1 else 0
  }

  ghost function PlainPush(pl: Plain, p: nat): nat {
    if pl.pc.Return? && pl.op == Push(p) then 1 else 0
  }

  /** How often p is on a stack, or popped. */
  ghost function Have(table: seq<SizeClass>, m: Mixed, p: nat): nat
    requires Divisible(table) && Shaped(table, m.fast.slabs)
  {
    On(table, m.fast.slabs, p) + Sum(Popping(m.fast.threads, p)) + Sum(PlainPops(m.plain, p)) + m.fast.popped[p]
  }

  /** How often p was pushed. */
  ghost function Given(m: Mixed, p: nat): nat {
    Sum(Pushing(m.fast.threads, p)) + Sum(PlainPushes(m.plain, p)) + m.fast.pushed[p]
  }

  ghost predicate AllConserved(table: seq<SizeClass>, m: Mixed)
    requires Divisible(table)
  {
    Shaped(table, m.fast.slabs) && forall p: nat :: Have(table, m, p) == Given(m, p)
  }

  /** The step changes what is there as it changes what was pushed. */
  ghost predicate Even(table: seq<SizeClass>, m: Mixed, m': Mixed)
    requires Divisible(table) && Shaped(table, m.fast.slabs) && Shaped(table, m'.fast.slabs)
  {
    forall p: nat :: Have(table, m', p) + Given(m, p) == Have(table, m, p) + Given(m', p)
  }

  // ---- plain calls ----

  /** A touch finds its slot spare, and a store finds what was loaded and read or written. */
  ghost predicate PlainCareful(table: seq<SizeClass>, m: Mixed, t: nat)
    requires Divisible(table) && Fit(table, m) && t < |m.plain|
  {
    var pl := m.plain[t];
    && (pl.pc.Touch? ==> SlotSpare(table, m.fast.slabs, AsThread(pl)))
    && (pl.pc.Store? ==> StillThere(table, m.fast.slabs, AsThread(pl)))
  }

  lemma PlainDelta(plain: seq<Plain>, t: nat, pl: Plain, p: nat)
    requires t < |plain|
    ensures Sum(PlainPops(plain[t := pl], p)) + PlainPop(plain[t], p) == Sum(PlainPops(plain, p)) + PlainPop(pl, p)
    ensures Sum(PlainPushes(plain[t := pl], p)) + PlainPush(plain[t], p)
            == Sum(PlainPushes(plain, p)) + PlainPush(pl, p)
  {
    hide Sum, PlainPop, PlainPush;
    SumUpdate(PlainPops(plain, p), t, PlainPop(pl, p));
    assert PlainPops(plain[t := pl], p) == PlainPops(plain, p)[t := PlainPop(pl, p)];
    SumUpdate(PlainPushes(plain, p), t, PlainPush(pl, p));
    assert PlainPushes(plain[t := pl], p) == PlainPushes(plain, p)[t := PlainPush(pl, p)];
  }

  /** Slabs of the same shape keep everybody fit. */
  lemma StillFit(table: seq<SizeClass>, m: Mixed, m': Mixed)
    requires Divisible(table) && Fit(table, m) && Shaped(table, m'.fast.slabs) && |m'.fast.slabs| == |m.fast.slabs|
    requires forall t | 0 <= t < |m'.fast.threads| ::
               FastFits(table, m.fast.slabs, m'.fast.threads[t])
    requires forall t | 0 <= t < |m'.plain| :: PlainFits(table, m.fast.slabs, m'.plain[t])
    ensures Fit(table, m')
  {
    hide Shaped, Capacity, Divisible;
  }

  lemma PlainShape(table: seq<SizeClass>, m: Mixed, t: nat, cpu: nat, op: Op, c: nat, m': Mixed)
    requires Divisible(table) && Fit(table, m) && PlainStep(table, m, t, cpu, op, c, m')
    ensures Fit(table, m')
  {
    hide Capacity, Offset, Divisible, SlabShape;
    var pl, slabs := m.plain[t], m.fast.slabs;
    assert PlainFits(table, slabs, pl);
    if pl.pc.Touch? && pl.op.Push? { TouchExact(table, slabs, AsThread(pl)); }
    if pl.pc.Store? { StoreExact(table, slabs, AsThread(pl)); }
    if pl.pc.Load? { ShapeAt(table, slabs, pl.cpu); CountBound(table, slabs[pl.cpu], pl.cls); }
    hide Shaped, Slot, Refused;
    StillFit(table, m, m');
  }

  lemma CountBound(table: seq<SizeClass>, sl: CpuSlab, c: nat)
    requires Divisible(table) && SlabShape(table, sl) && c < |table|
    ensures |sl.counts| == |table| && sl.counts[c] <= Capacity(table, c)
  {
  }

  /** What a store is to change. */
  ghost predicate Moved(table: seq<SizeClass>, slabs: seq<CpuSlab>, slabs': seq<CpuSlab>, th: Thread, stores: bool,
                        p: nat)
    requires Divisible(table) && Shaped(table, slabs) && Shaped(table, slabs')
  {
    if !stores then On(table, slabs', p) == On(table, slabs, p)
    else if th.op.Pop? then On(table, slabs', p) + Moves(th, p) == On(table, slabs, p)
    else On(table, slabs', p) == On(table, slabs, p) + Moves(th, p)
  }

  lemma PlainEven(table: seq<SizeClass>, m: Mixed, t: nat, cpu: nat, op: Op, c: nat, m': Mixed, p: nat)
    requires Divisible(table) && Fit(table, m) && Shaped(table, m'.fast.slabs) && PlainStep(table, m, t, cpu, op, c, m')
    ensures Have(table, m', p) + Given(m, p) == Have(table, m, p) + Given(m', p)
            <==> Moved(table, m.fast.slabs, m'.fast.slabs, AsThread(m.plain[t]), m.plain[t].pc.Store?, p)
  {
    hide Capacity, Offset, Divisible, SlabShape, Shaped, On, Sum, Slot, Refused, Touched, Stored;
    PlainDelta(m.plain, t, m'.plain[t], p);
  }

  /** A plain step keeps the balance if and only if it is careful. */
  lemma PlainExact(table: seq<SizeClass>, m: Mixed, t: nat, cpu: nat, op: Op, c: nat, m': Mixed)
    requires Divisible(table) && Fit(table, m) && PlainStep(table, m, t, cpu, op, c, m')
    ensures Fit(table, m') && (Even(table, m, m') <==> PlainCareful(table, m, t))
  {
    hide Capacity, Offset, Divisible, SlabShape, Shaped, On, Sum, Slot, Refused, StillThere, SlotSpare, Have, Given;
    PlainShape(table, m, t, cpu, op, c, m');
    var pl, slabs := m.plain[t], m.fast.slabs;
    assert PlainFits(table, slabs, pl);
    forall p: nat { PlainEven(table, m, t, cpu, op, c, m', p); }
    assert Even(table, m, m') <==> forall p: nat :: Moved(table, slabs, m'.fast.slabs, AsThread(pl), pl.pc.Store?, p);
    if pl.pc.Store? {
      StoreAny(table, slabs, AsThread(pl));
    } else if pl.pc.Touch? {
      TouchAny(table, slabs, AsThread(pl));
    } else {
      assert m'.fast.slabs == slabs;
    }
  }

  lemma StoreAny(table: seq<SizeClass>, slabs: seq<CpuSlab>, th: Thread)
    requires Divisible(table) && Shaped(table, slabs) && Loaded(table, slabs, th)
    ensures th.cls < |slabs[th.cpu].counts| && (th.op.Pop? ==> th.cur > 0) && Shaped(table, Stored(slabs, th))
    ensures (forall p: nat :: Moved(table, slabs, Stored(slabs, th), th, true, p)) <==> StillThere(table, slabs, th)
  {
    hide Capacity, Offset, Divisible, Shaped, Slot, Refused, On, Stored, StillThere;
    StoreExact(table, slabs, th);
    var slabs' := Stored(slabs, th);
    if forall p: nat :: Moved(table, slabs, slabs', th, true, p) {
      forall p: nat
        ensures if th.op.Pop? then On(table, slabs', p) + Moves(th, p) == On(table, slabs, p)
                else On(table, slabs', p) == On(table, slabs, p) + Moves(th, p)
      {
        assert Moved(table, slabs, slabs', th, true, p);
      }
    }
  }

  lemma TouchAny(table: seq<SizeClass>, slabs: seq<CpuSlab>, th: Thread)
    requires Divisible(table) && Shaped(table, slabs) && Loaded(table, slabs, th)
    ensures 0 <= Slot(table, th) < |slabs[th.cpu].pointers| && Shaped(table, Touched(table, slabs, th))
    ensures (forall p: nat :: Moved(table, slabs, Touched(table, slabs, th), th, false, p))
            <==> SlotSpare(table, slabs, th)
  {
    hide Capacity, Offset, Divisible, Shaped, Slot, Refused, On;
    LoadedSlot(table, slabs, th);
    if th.op.Push? {
      TouchExact(table, slabs, th);
      var slabs' := Touched(table, slabs, th);
      if forall p: nat :: Moved(table, slabs, slabs', th, false, p) {
        forall p: nat
          ensures On(table, slabs', p) == On(table, slabs, p)
        {
          assert Moved(table, slabs, slabs', th, false, p);
        }
      }
    }
  }

  // ---- restartable sections among plain calls ----

  /** The thread ran a step of its own: it was not scheduled and not taken off its CPU. */
  ghost predicate Runs(m: Mixed, t: nat, m': Mixed) {
    t < |m.fast.threads| && t < |m'.fast.threads| && m.fast.threads[t].on.Some? && m'.fast.threads[t].on.Some?
  }

  /** Taken off its CPU between its commit store and the disarming one. */
  ghost predicate LateAbort(m: Mixed, t: nat, m': Mixed) {
    && t < |m.fast.threads| && t < |m'.fast.threads|
    && m.fast.threads[t].pc.Disarm? && m.fast.threads[t].on.Some? && m'.fast.threads[t].on.None?
  }

  ghost predicate FastCareful(table: seq<SizeClass>, m: Mixed, t: nat, m': Mixed)
    requires Divisible(table) && Fit(table, m) && t < |m.fast.threads|
  {
    var th := m.fast.threads[t];
    && !LateAbort(m, t, m')
    && (th.pc.Access? && Runs(m, t, m') ==> SlotSpare(table, m.fast.slabs, th))
    && (th.pc.Commit? && Runs(m, t, m') ==> StillThere(table, m.fast.slabs, th))
  }

  /** What a step of a section does to the slabs. */
  lemma FastSlabs(table: seq<SizeClass>, m: Mixed, t: nat, cpu: nat, op: Op, c: nat, m': Mixed)
    requires Divisible(table) && Fit(table, m) && FastStep(table, m, t, cpu, op, c, m')
    ensures t < |m.fast.threads| == |m'.fast.threads|
    ensures var th, slabs := m.fast.threads[t], m.fast.slabs;
            && (th.pc.Access? || th.pc.Commit? ==> Loaded(table, slabs, th))
            && if th.pc.Access? && Runs(m, t, m') then
                 && 0 <= Slot(table, th) < |slabs[th.cpu].pointers| && m'.fast.slabs == Touched(table, slabs, th)
               else if th.pc.Commit? && Runs(m, t, m') then
                 && th.cls < |slabs[th.cpu].counts| && (th.op.Pop? ==> th.cur > 0) && m'.fast.slabs == Stored(slabs, th)
               else
                 m'.fast.slabs == slabs
  {
    hide Capacity, Offset, Divisible, SlabShape, Slot, Refused, Shaped;
    assert FastFits(table, m.fast.slabs, m.fast.threads[t]);
  }

  /** The steps that leave the slabs alone. */
  lemma QuietOwn(table: seq<SizeClass>, s: State, t: nat, cpu: nat, op: Op, c: nat, s': State)
    requires Divisible(table) && Shaped(table, s.slabs) && t < |s.threads| && FastFits(table, s.slabs, s.threads[t])
    requires || ScheduleStep(s, t, cpu, s') || PreemptStep(s, t, s') || BeginStep(table, s, t, op, c, s')
             || ReadCpuStep(s, t, s') || DisarmStep(s, t, s') || ReportStep(s, t, s')
    ensures |s'.threads| == |s.threads| && FastFits(table, s.slabs, s'.threads[t])
    ensures forall u | 0 <= u < |s.threads| && u != t :: s'.threads[u] == s.threads[u]
  {
    hide Capacity, Offset, Divisible, SlabShape, Slot, Shaped;
  }

  lemma CheckOwn(table: seq<SizeClass>, s: State, t: nat, s': State)
    requires Divisible(table) && Shaped(table, s.slabs) && t < |s.threads| && FastFits(table, s.slabs, s.threads[t])
    requires || LoadCountStep(s, t, s') || CheckCpuStep(table, s, t, s') || AccessStep(table, s, t, s')
             || CommitStep(s, t, s')
    ensures |s'.threads| == |s.threads| && FastFits(table, s.slabs, s'.threads[t])
    ensures forall u | 0 <= u < |s.threads| && u != t :: s'.threads[u] == s.threads[u]
  {
    hide Capacity, Offset, Divisible, SlabShape, Slot;
    var th := s.threads[t];
    if th.pc.LoadCount? && th.cpu < |s.slabs| && th.cls < |table| {
      CountBound(table, s.slabs[th.cpu], th.cls);
    }
  }

  lemma FastOwn(table: seq<SizeClass>, m: Mixed, t: nat, cpu: nat, op: Op, c: nat, m': Mixed)
    requires Divisible(table) && Fit(table, m) && FastStep(table, m, t, cpu, op, c, m')
    ensures |m'.fast.threads| == |m.fast.threads| && FastFits(table, m.fast.slabs, m'.fast.threads[t])
    ensures forall u | 0 <= u < |m.fast.threads| && u != t :: m'.fast.threads[u] == m.fast.threads[u]
  {
    hide Divisible, Shaped, FastFits, PlainFits, ScheduleStep, PreemptStep, BeginStep, ReadCpuStep, LoadCountStep,
         CheckCpuStep, AccessStep, CommitStep, DisarmStep, ReportStep;
    var s, s' := m.fast, m'.fast;
    if || LoadCountStep(s, t, s') || CheckCpuStep(table, s, t, s') || AccessStep(table, s, t, s')
       || CommitStep(s, t, s') {
      CheckOwn(table, s, t, s');
    } else {
      QuietOwn(table, s, t, cpu, op, c, s');
    }
  }

  lemma FastShape(table: seq<SizeClass>, m: Mixed, t: nat, cpu: nat, op: Op, c: nat, m': Mixed)
    requires Divisible(table) && Fit(table, m) && FastStep(table, m, t, cpu, op, c, m')
    ensures Fit(table, m')
  {
    hide Capacity, Offset, Divisible, SlabShape, Shaped, Slot, Refused, ThreadStep, FastFits, PlainFits;
    FastSlabs(table, m, t, cpu, op, c, m');
    FastOwn(table, m, t, cpu, op, c, m');
    var th := m.fast.threads[t];
    if th.pc.Access? && Runs(m, t, m') { TouchAny(table, m.fast.slabs, th); }
    if th.pc.Commit? && Runs(m, t, m') { StoreAny(table, m.fast.slabs, th); }
    StillFit(table, m, m');
  }

  /** What a step of a section books for p, by the kind of step. */
  ghost predicate Books(m: Mixed, t: nat, m': Mixed, stores: bool, late: bool, p: nat)
    requires t < |m.fast.threads| == |m'.fast.threads|
  {
    var s, s', th, th' := m.fast, m'.fast, m.fast.threads[t], m'.fast.threads[t];
    var up := if stores then Moves(th, p) else 0;
    var down := if late then Moves(th, p) else 0;
    && s'.threads == s.threads[t := th'] && m'.plain == m.plain
    && PopsNow(th', p) + s'.popped[p] + (if th.op.Pop? then down else 0)
       == PopsNow(th, p) + s.popped[p] + (if th.op.Pop? then up else 0)
    && PushesNow(th', p) + s'.pushed[p] + (if th.op.Push? then down else 0)
       == PushesNow(th, p) + s.pushed[p] + (if th.op.Push? then up else 0)
  }

  lemma CommitBooks(table: seq<SizeClass>, m: Mixed, t: nat, m': Mixed, p: nat)
    requires t < |m.fast.threads| && CommitStep(m.fast, t, m'.fast) && m'.plain == m.plain
    ensures |m'.fast.threads| == |m.fast.threads| && Runs(m, t, m') && m.fast.threads[t].pc.Commit?
    ensures !LateAbort(m, t, m') && Books(m, t, m', true, false, p)
  {
  }

  lemma AbortBooks(m: Mixed, t: nat, m': Mixed, p: nat)
    requires t < |m.fast.threads| && PreemptStep(m.fast, t, m'.fast) && m'.plain == m.plain
    ensures |m'.fast.threads| == |m.fast.threads| && !Runs(m, t, m') && Books(m, t, m', false, LateAbort(m, t, m'), p)
  {
  }

  /** Steps that neither commit nor abort. */
  lemma CalmBooks(table: seq<SizeClass>, m: Mixed, t: nat, cpu: nat, op: Op, c: nat, m': Mixed, p: nat)
    requires Divisible(table) && t < |m.fast.threads| && m'.plain == m.plain
    requires || ScheduleStep(m.fast, t, cpu, m'.fast) || BeginStep(table, m.fast, t, op, c, m'.fast)
             || ReadCpuStep(m.fast, t, m'.fast) || LoadCountStep(m.fast, t, m'.fast)
             || CheckCpuStep(table, m.fast, t, m'.fast) || DisarmStep(m.fast, t, m'.fast)
             || ReportStep(m.fast, t, m'.fast)
    ensures |m'.fast.threads| == |m.fast.threads| && !LateAbort(m, t, m') && Books(m, t, m', false, false, p)
    ensures !(m.fast.threads[t].pc.Commit? && Runs(m, t, m'))
  {
    hide Divisible, Refused;
  }

  lemma FastBooks(table: seq<SizeClass>, m: Mixed, t: nat, cpu: nat, op: Op, c: nat, m': Mixed, p: nat)
    requires Divisible(table) && FastStep(table, m, t, cpu, op, c, m')
    ensures t < |m.fast.threads| == |m'.fast.threads|
    ensures Books(m, t, m', m.fast.threads[t].pc.Commit? && Runs(m, t, m'), LateAbort(m, t, m'), p)
  {
    hide Divisible, ScheduleStep, PreemptStep, BeginStep, ReadCpuStep, LoadCountStep, CheckCpuStep, CommitStep,
         DisarmStep, ReportStep, AccessStep, Books;
    var s, s' := m.fast, m'.fast;
    if CommitStep(s, t, s') {
      CommitBooks(table, m, t, m', p);
    } else if PreemptStep(s, t, s') {
      AbortBooks(m, t, m', p);
    } else if AccessStep(table, s, t, s') {
      TouchBooks(table, m, t, m', p);
    } else {
      CalmBooks(table, m, t, cpu, op, c, m', p);
    }
  }

  lemma TouchBooks(table: seq<SizeClass>, m: Mixed, t: nat, m': Mixed, p: nat)
    requires Divisible(table) && t < |m.fast.threads| && AccessStep(table, m.fast, t, m'.fast) && m'.plain == m.plain
    ensures |m'.fast.threads| == |m.fast.threads| && !LateAbort(m, t, m') && Books(m, t, m', false, false, p)
    ensures !(m.fast.threads[t].pc.Commit? && Runs(m, t, m'))
  {
    hide Divisible, Slot;
  }

  lemma FastEven(table: seq<SizeClass>, m: Mixed, t: nat, cpu: nat, op: Op, c: nat, m': Mixed, p: nat)
    requires Divisible(table) && Fit(table, m) && Shaped(table, m'.fast.slabs) && FastStep(table, m, t, cpu, op, c, m')
    ensures t < |m.fast.threads| == |m'.fast.threads|
    ensures var th := m.fast.threads[t];
            var even := Have(table, m', p) + Given(m, p) == Have(table, m, p) + Given(m', p);
            if LateAbort(m, t, m') then
              Moved(table, m.fast.slabs, m'.fast.slabs, th, false, p) ==> (even <==> Moves(th, p) == 0)
            else
              even <==> Moved(table, m.fast.slabs, m'.fast.slabs, th, th.pc.Commit? && Runs(m, t, m'), p)
  {
    hide Divisible, Shaped, On, Sum, ThreadStep, PopsNow, PushesNow, FastFits, PlainFits, Moves;
    FastBooks(table, m, t, cpu, op, c, m', p);
    ThreadDelta(m.fast.threads, t, m'.fast.threads[t], p);
  }

  /** A section's step keeps the balance if and only if it is careful. */
  lemma FastExact(table: seq<SizeClass>, m: Mixed, t: nat, cpu: nat, op: Op, c: nat, m': Mixed)
    requires Divisible(table) && Fit(table, m) && FastStep(table, m, t, cpu, op, c, m')
    ensures t < |m.fast.threads| && Fit(table, m') && (Even(table, m, m') <==> FastCareful(table, m, t, m'))
  {
    hide Capacity, Offset, Divisible, SlabShape, Shaped, On, Sum, Slot, Refused, StillThere, SlotSpare, Have, Given;
    hide ThreadStep, FastFits, Fit;
    FastShape(table, m, t, cpu, op, c, m');
    FastSlabs(table, m, t, cpu, op, c, m');
    FitShaped(table, m);
    FitShaped(table, m');
    var th, slabs, slabs' := m.fast.threads[t], m.fast.slabs, m'.fast.slabs;
    forall p: nat { FastEven(table, m, t, cpu, op, c, m', p); }
    if LateAbort(m, t, m') {
      var p := if th.op.Pop? then th.top else th.op.ptr;
      assert Moved(table, slabs, slabs', th, false, p);
      assert Moves(th, p) == 1;
      FastEven(table, m, t, cpu, op, c, m', p);
    } else {
      var stores := th.pc.Commit? && Runs(m, t, m');
      assert Even(table, m, m') <==> forall p: nat :: Moved(table, slabs, slabs', th, stores, p);
      if stores {
        StoreAny(table, slabs, th);
      } else if th.pc.Access? && Runs(m, t, m') {
        TouchAny(table, slabs, th);
      } else {
        assert slabs' == slabs;
      }
    }
  }

  lemma FitShaped(table: seq<SizeClass>, m: Mixed)
    requires Divisible(table) && Fit(table, m)
    ensures Shaped(table, m.fast.slabs)
  {
  }

  // ---- runs ----

  /** Who moves: a thread in a section or outside any call, or a plain call. */
  datatype Move = Fast(t: nat) | Slow(t: nat)

  ghost predicate Goes(table: seq<SizeClass>, m: Mixed, mv: Move, m': Mixed)
    requires Divisible(table)
  {
    exists cpu, op, c ::
      if mv.Fast? then FastStep(table, m, mv.t, cpu, op, c, m') else PlainStep(table, m, mv.t, cpu, op, c, m')
  }

  ghost predicate MixedRun(table: seq<SizeClass>, ms: seq<Mixed>, mvs: seq<Move>)
    requires Divisible(table)
  {
    && |ms| == |mvs| + 1 && MixedInit(table, ms[0])
    && forall i | 0 <= i < |mvs| :: Goes(table, ms[i], mvs[i], ms[i + 1])
  }

  ghost predicate Careful(table: seq<SizeClass>, m: Mixed, mv: Move, m': Mixed)
    requires Divisible(table)
  {
    && Fit(table, m)
    && if mv.Fast? then mv.t < |m.fast.threads| && FastCareful(table, m, mv.t, m')
       else mv.t < |m.plain| && PlainCareful(table, m, mv.t)
  }

  lemma MoveExact(table: seq<SizeClass>, m: Mixed, mv: Move, m': Mixed)
    requires Divisible(table) && Fit(table, m) && Goes(table, m, mv, m')
    ensures Fit(table, m') && (Even(table, m, m') <==> Careful(table, m, mv, m'))
  {
    hide Divisible, Fit, FastStep, PlainStep, Even, FastCareful, PlainCareful;
    var cpu, op, c :|
      if mv.Fast? then FastStep(table, m, mv.t, cpu, op, c, m') else PlainStep(table, m, mv.t, cpu, op, c, m');
    if mv.Fast? {
      FastExact(table, m, mv.t, cpu, op, c, m');
    } else {
      PlainBounds(table, m, mv.t, cpu, op, c, m');
      PlainExact(table, m, mv.t, cpu, op, c, m');
    }
  }

  lemma PlainBounds(table: seq<SizeClass>, m: Mixed, t: nat, cpu: nat, op: Op, c: nat, m': Mixed)
    requires Divisible(table) && PlainStep(table, m, t, cpu, op, c, m')
    ensures t < |m.plain|
  {
  }

  lemma InitConserved(table: seq<SizeClass>, m: Mixed)
    requires Divisible(table) && MixedInit(table, m)
    ensures Fit(table, m) && AllConserved(table, m)
  {
    hide Divisible, Offset, Capacity, Sum;
    InitInv(table, m.fast);
    forall p: nat
      ensures Have(table, m, p) == Given(m, p)
    {
      SumZero(PlainPops(m.plain, p));
      SumZero(PlainPushes(m.plain, p));
      assert OnStacks(table, m.fast, p) == On(table, m.fast.slabs, p);
    }
  }

  /** In every run, however plain calls and sections interleave, no count leaves its slice; and pointers
      are conserved all along if and only if every touch finds its slot spare, every store what was loaded,
      and no abort comes late. */
  lemma {:induction false} RacesExactly(table: seq<SizeClass>, ms: seq<Mixed>, mvs: seq<Move>)
    requires Divisible(table) && MixedRun(table, ms, mvs)
    ensures Fit(table, ms[|mvs|])
    ensures (forall i | 0 <= i <= |mvs| :: AllConserved(table, ms[i]))
            <==> (forall i | 0 <= i < |mvs| :: Careful(table, ms[i], mvs[i], ms[i + 1]))
    decreases |mvs|
  {
    hide Divisible, MixedInit, Goes, Fit, AllConserved, Careful;
    var n := |mvs| - 1;
    if mvs == [] {
      InitConserved(table, ms[0]);
    } else {
      RacesExactly(table, ms[..n + 1], mvs[..n]);
      MoveExact(table, ms[n], mvs[n], ms[n + 1]);
      Conserves(table, ms[n], ms[n + 1]);
      assert forall i | 0 <= i <= n :: ms[..n + 1][i] == ms[i];
      assert forall i | 0 <= i < n :: mvs[..n][i] == mvs[i];
    }
  }

  lemma Conserves(table: seq<SizeClass>, m: Mixed, m': Mixed)
    requires Divisible(table) && Fit(table, m) && Fit(table, m')
    ensures AllConserved(table, m) ==> (AllConserved(table, m') <==> Even(table, m, m'))
  {
    hide Divisible, Have, Given, Shaped;
  }

  // ---- a run that pops one pointer twice ----

  lemma Longer(table: seq<SizeClass>, ms: seq<Mixed>, mvs: seq<Move>, t: nat, cpu: nat, op: Op, c: nat, m': Mixed)
    returns (ms': seq<Mixed>, mvs': seq<Move>)
    requires Divisible(table) && MixedRun(table, ms, mvs) && PlainStep(table, ms[|mvs|], t, cpu, op, c, m')
    ensures MixedRun(table, ms', mvs') && |ms'| == |mvs'| + 1 && ms'[|mvs'|] == m'
  {
    hide Divisible, MixedInit, PlainStep, FastStep;
    ms', mvs' := ms + [m'], mvs + [Slow(t)];
    assert Goes(table, ms[|mvs|], Slow(t), m');
  }

  ghost function OneSlab(counts: seq<nat>, pointers: seq<nat>, pushed: multiset<nat>, popped: multiset<nat>,
                         a: Plain, b: Plain): Mixed {
    Mixed(State([CpuSlab(counts, pointers)], [], pushed, popped, multiset{}, multiset{}), [a, b])
  }

  /** A first call pushes p. */
  lemma PushedOnce(table: seq<SizeClass>, p: nat)
    returns (ms: seq<Mixed>, mvs: seq<Move>, counts: seq<nat>, pointers: seq<nat>, a: Plain, b: Plain)
    requires Divisible(table) && |table| >= 2
    ensures MixedRun(table, ms, mvs) && |ms| == |mvs| + 1
    ensures ms[|mvs|] == OneSlab(counts, pointers, multiset{p}, multiset{}, a, b)
    ensures |counts| == |table| && counts[1] == 1 && a.pc.Rest? && b.pc.Rest?
    ensures Offset(table, 1) < |pointers| && pointers[Offset(table, 1)] == p
  {
    hide Divisible, Offset, Capacity, MixedRun;
    CapacityLaws(table, 1);
    SlicesApart(table, 1, |table|);
    var e, r := EmptySlab(table), Plain(Pop, 0, Rest, 0, 0, 0);
    var none: multiset<nat> := multiset{};
    var m0 := OneSlab(e.counts, e.pointers, none, none, r, r);
    ms, mvs := [m0], [];
    Begins(table, m0);
    var a1 := Plain(Push(p), 1, Load, 0, 0, 0);
    ms, mvs := Longer(table, ms, mvs, 0, 0, Push(p), 1, OneSlab(e.counts, e.pointers, none, none, a1, r));
    ms, mvs := Longer(table, ms, mvs, 0, 0, Pop, 0, OneSlab(e.counts, e.pointers, none, none, a1.(pc := Touch), r));
    pointers := e.pointers[Offset(table, 1) := p];
    ms, mvs := Longer(table, ms, mvs, 0, 0, Pop, 0, OneSlab(e.counts, pointers, none, none, a1.(pc := Store), r));
    counts := e.counts[1 := 1];
    ms, mvs := Longer(table, ms, mvs, 0, 0, Pop, 0, OneSlab(counts, pointers, none, none, a1.(pc := Return), r));
    a, b := a1.(pc := Rest), r;
    ms, mvs := Longer(table, ms, mvs, 0, 0, Pop, 0, OneSlab(counts, pointers, multiset{p}, none, a, b));
  }

  lemma Begins(table: seq<SizeClass>, m: Mixed)
    requires Divisible(table) && MixedInit(table, m)
    ensures MixedRun(table, [m], [])
  {
  }

  /** Two calls load the count, one after the other, before either stores. */
  lemma BothLoad(table: seq<SizeClass>, p: nat, counts: seq<nat>, pointers: seq<nat>, a: Plain, b: Plain,
                 ms0: seq<Mixed>, mvs0: seq<Move>) returns (ms: seq<Mixed>, mvs: seq<Move>)
    requires Divisible(table) && |table| >= 2 && MixedRun(table, ms0, mvs0) && |counts| == |table| && counts[1] == 1
    requires a.pc.Rest? && b.pc.Rest? && ms0[|mvs0|] == OneSlab(counts, pointers, multiset{p}, multiset{}, a, b)
    ensures MixedRun(table, ms, mvs) && |ms| == |mvs| + 1
    ensures var y := Plain(Pop, 1, Touch, 0, 1, 0);
            ms[|mvs|] == OneSlab(counts, pointers, multiset{p}, multiset{}, y, y)
  {
    hide Divisible, Offset, Capacity, MixedRun;
    var one, none: multiset<nat> := multiset{p}, multiset{};
    var x := Plain(Pop, 1, Load, 0, 0, 0);
    ms, mvs := Longer(table, ms0, mvs0, 0, 0, Pop, 1, OneSlab(counts, pointers, one, none, x, b));
    ms, mvs := Longer(table, ms, mvs, 1, 0, Pop, 1, OneSlab(counts, pointers, one, none, x, x));
    var y := x.(cur := 1, pc := Touch);
    ms, mvs := Longer(table, ms, mvs, 0, 0, Pop, 0, OneSlab(counts, pointers, one, none, y, x));
    ms, mvs := Longer(table, ms, mvs, 1, 0, Pop, 0, OneSlab(counts, pointers, one, none, y, y));
  }

  /** Both read the same pointer. */
  lemma BothTouch(table: seq<SizeClass>, p: nat, counts: seq<nat>, pointers: seq<nat>, ms0: seq<Mixed>, mvs0: seq<Move>)
    returns (ms: seq<Mixed>, mvs: seq<Move>)
    requires Divisible(table) && |table| >= 2 && MixedRun(table, ms0, mvs0)
    requires Offset(table, 1) < |pointers| && pointers[Offset(table, 1)] == p
    requires var y := Plain(Pop, 1, Touch, 0, 1, 0);
             ms0[|mvs0|] == OneSlab(counts, pointers, multiset{p}, multiset{}, y, y)
    ensures MixedRun(table, ms, mvs) && |ms| == |mvs| + 1
    ensures var z := Plain(Pop, 1, Store, 0, 1, p);
            ms[|mvs|] == OneSlab(counts, pointers, multiset{p}, multiset{}, z, z)
  {
    hide Divisible, Offset, Capacity, MixedRun;
    var one, none: multiset<nat> := multiset{p}, multiset{};
    var y, z := Plain(Pop, 1, Touch, 0, 1, 0), Plain(Pop, 1, Store, 0, 1, p);
    ms, mvs := Longer(table, ms0, mvs0, 0, 0, Pop, 0, OneSlab(counts, pointers, one, none, z, y));
    ms, mvs := Longer(table, ms, mvs, 1, 0, Pop, 0, OneSlab(counts, pointers, one, none, z, z));
  }

  /** Two plain calls whose accesses alternate pop one pointer twice. */
  lemma PoppedTwice(table: seq<SizeClass>, p: nat) returns (ms: seq<Mixed>, mvs: seq<Move>)
    requires Divisible(table) && |table| >= 2
    ensures MixedRun(table, ms, mvs) && |ms| == |mvs| + 1
    ensures ms[|mvs|].fast.pushed == multiset{p} && ms[|mvs|].fast.popped == multiset{p, p}
    ensures !AllConserved(table, ms[|mvs|])
  {
    hide Divisible, Offset, Capacity, MixedRun, AllConserved;
    var counts, pointers, a, b;
    ms, mvs, counts, pointers, a, b := PushedOnce(table, p);
    ms, mvs := BothLoad(table, p, counts, pointers, a, b, ms, mvs);
    ms, mvs := BothTouch(table, p, counts, pointers, ms, mvs);
    var less, q;
    ms, mvs, less, q := BothStore(table, p, counts, pointers, Plain(Pop, 1, Store, 0, 1, p), ms, mvs);
    Unbalanced(table, ms[|mvs|], p);
  }

  lemma BothStore(table: seq<SizeClass>, p: nat, counts: seq<nat>, pointers: seq<nat>, z: Plain, ms0: seq<Mixed>,
                  mvs0: seq<Move>) returns (ms: seq<Mixed>, mvs: seq<Move>, less: seq<nat>, q: Plain)
    requires Divisible(table) && |table| >= 2 && MixedRun(table, ms0, mvs0) && |counts| == |table|
    requires z == Plain(Pop, 1, Store, 0, 1, p)
    requires ms0[|mvs0|] == OneSlab(counts, pointers, multiset{p}, multiset{}, z, z)
    ensures MixedRun(table, ms, mvs) && |ms| == |mvs| + 1
    ensures ms[|mvs|] == OneSlab(less, pointers, multiset{p}, multiset{p, p}, q, q) && q.pc.Rest?
  {
    hide Divisible, Offset, Capacity, MixedRun, Refused;
    var one, none: multiset<nat> := multiset{p}, multiset{};
    less := counts[1 := 0];
    var d := z.(pc := Return);
    assert less[1 := 0] == less;
    ms, mvs := Longer(table, ms0, mvs0, 0, 0, Pop, 0, OneSlab(less, pointers, one, none, d, z));
    ms, mvs := Longer(table, ms, mvs, 1, 0, Pop, 0, OneSlab(less, pointers, one, none, d, d));
    q := d.(pc := Rest);
    ms, mvs := Longer(table, ms, mvs, 0, 0, Pop, 0, OneSlab(less, pointers, one, one, q, d));
    assert one + one == multiset{p, p};
    ms, mvs := Longer(table, ms, mvs, 1, 0, Pop, 0, OneSlab(less, pointers, one, multiset{p, p}, q, q));
  }

  lemma Unbalanced(table: seq<SizeClass>, m: Mixed, p: nat)
    requires Divisible(table) && m.fast.threads == [] && |m.plain| == 2
    requires (forall t | 0 <= t < |m.plain| :: m.plain[t].pc.Rest?)
    requires m.fast.pushed == multiset{p} && m.fast.popped == multiset{p, p}
    ensures !AllConserved(table, m)
  {
    hide Divisible, Sum, On, Shaped;
    if Shaped(table, m.fast.slabs) {
      SumZero(PlainPushes(m.plain, p));
      SumZero(Pushing(m.fast.threads, p));
      assert Given(m, p) == 1 && Have(table, m, p) >= 2;
    }
  }

  // ---- a plain call nothing comes between ----

  /** The first step of a plain call after its start: it reports what holds of the stack at that moment. */
  lemma LoadAlone(table: seq<SizeClass>, m: Mixed, t: nat, cpu: nat, op: Op, c: nat, m': Mixed)
    requires Divisible(table) && t < |m.plain| && m.plain[t].pc.Load? && PlainStep(table, m, t, cpu, op, c, m')
    requires Shaped(table, m.fast.slabs)
    ensures var pl, pl' := m.plain[t], m'.plain[t];
            && pl.cls < |table| && pl.cpu < |m.fast.slabs| && m'.fast == m.fast && |m'.plain| == |m.plain|
            && var stack := Stacks(table, m.fast.slabs)[pl.cpu][pl.cls];
               && pl' == pl.(pc := pl'.pc, cur := |stack|)
               && pl'.pc == if (if pl.op.Pop? then stack == [] else |stack| == Capacity(table, pl.cls)) then Rest
                            else Touch
  {
    hide Divisible, Offset, Capacity;
  }

  /** A plain call that no other thread's access comes between takes the top of its CPU's stack, or puts its
      pointer there, and touches no other stack. */
  lemma PlainAlone(table: seq<SizeClass>, m: Mixed, t: nat, cpu: nat, op: Op, c: nat, m1: Mixed, m2: Mixed, m3: Mixed)
    requires Divisible(table) && t < |m.plain| && m.plain[t].pc.Load? && Shaped(table, m.fast.slabs)
    requires PlainStep(table, m, t, cpu, op, c, m1) && !m1.plain[t].pc.Rest?
    requires PlainStep(table, m1, t, cpu, op, c, m2) && PlainStep(table, m2, t, cpu, op, c, m3)
    ensures Shaped(table, m3.fast.slabs) && |m3.plain| == |m.plain| && m3.plain[t].pc.Return?
    ensures var pl, before, after := m.plain[t], Stacks(table, m.fast.slabs), Stacks(table, m3.fast.slabs);
            && pl.cpu < |before| && pl.cls < |before[pl.cpu]|
            && var x, d, stack := pl.cpu, pl.cls, before[pl.cpu][pl.cls];
               match pl.op
               case Pop =>
                 && stack != [] && m3.plain[t].top == stack[|stack| - 1]
                 && after == before[x := before[x][d := stack[..|stack| - 1]]]
               case Push(p) =>
                 |stack| < Capacity(table, d) && after == before[x := before[x][d := stack + [p]]]
  {
    LoadAlone(table, m, t, cpu, op, c, m1);
    var th := AsThread(m1.plain[t]);
    var x, d, sl := th.cpu, th.cls, m.fast.slabs[th.cpu];
    StackRoom(table, m.fast.slabs, th);
    LoadedSlot(table, m.fast.slabs, th);
    TouchSeen(table, m1, t, cpu, op, c, m2);
    hide Divisible, Offset, Capacity, SlabShape, SlabStacks, Refused;
    var i: nat := Slot(table, th);
    var sl1 := if th.op.Pop? then sl else sl.(pointers := sl.pointers[i := th.op.ptr]);
    var n: nat := if th.op.Pop? then th.cur - 1 else th.cur + 1;
    if th.op.Push? {
      StoreAbove(table, sl, d, i, th.op.ptr);
      StacksReplace(table, m.fast.slabs, x, sl1);
    }
    assert m2.fast.slabs == m.fast.slabs[x := sl1];
    StoreCount(table, sl1, d, n);
    StacksReplace(table, m2.fast.slabs, x, sl1.(counts := sl1.counts[d := n]));
    assert m3.fast.slabs == m2.fast.slabs[x := sl1.(counts := sl1.counts[d := n])];
    SliceGrown(sl1.pointers, Offset(table, d), th.cur);
  }

  lemma StackRoom(table: seq<SizeClass>, slabs: seq<CpuSlab>, th: Thread)
    requires Divisible(table) && Shaped(table, slabs) && th.cls < |table| && th.cpu < |slabs|
    requires th.cur == |Stacks(table, slabs)[th.cpu][th.cls]|
    requires if th.op.Pop? then th.cur > 0 else th.cur != Capacity(table, th.cls)
    ensures Loaded(table, slabs, th) && SlabShape(table, slabs[th.cpu]) && slabs[th.cpu].counts[th.cls] == th.cur
    ensures if th.op.Pop? then 0 < th.cur <= Capacity(table, th.cls) else th.cur + 1 <= Capacity(table, th.cls)
    ensures Slot(table, th) == Offset(table, th.cls) + if th.op.Pop? then th.cur - 1 else th.cur
    ensures Stacks(table, slabs)[th.cpu][th.cls] == StackOf(table, slabs[th.cpu], th.cls)
  {
    hide Offset, Capacity;
  }

  lemma TouchSeen(table: seq<SizeClass>, m: Mixed, t: nat, cpu: nat, op: Op, c: nat, m': Mixed)
    requires Divisible(table) && t < |m.plain| && m.plain[t].pc.Touch? && PlainStep(table, m, t, cpu, op, c, m')
    ensures var pl, slabs := m.plain[t], m.fast.slabs;
            && pl.cls < |table| && pl.cpu < |slabs| && 0 <= Slot(table, AsThread(pl)) < |slabs[pl.cpu].pointers|
            && m'.fast == m.fast.(slabs := Touched(table, slabs, AsThread(pl))) && |m'.plain| == |m.plain|
            && m'.plain[t] == pl.(pc := Store,
                                  top := if pl.op.Pop? then slabs[pl.cpu].pointers[Slot(table, AsThread(pl))]
                                         else pl.top)
  {
    hide Divisible, Offset, Capacity;
  }
}
