/** The restartable sections are atomic up to their commit store; what an abort between that store
    and the disarming one breaks, and that nothing else breaks anything. */
module RseqLaws {
  import opened Counting
  import opened Widths
  import opened SizeClasses
  import opened SlabLayout
  import opened RseqSteps

  // ---- abstract stacks ----

  /** The stack of one class on one CPU. */
  ghost function StackOf(table: seq<SizeClass>, sl: CpuSlab, c: nat): (r: seq<nat>)
    requires Divisible(table) && SlabShape(table, sl) && c < |table|
    ensures |r| == sl.counts[c]
  {
    SlicesApart(table, c, |table|);
    sl.pointers[Offset(table, c)..Offset(table, c) + sl.counts[c]]
  }

  ghost function SlabStacks(table: seq<SizeClass>, sl: CpuSlab): (r: seq<seq<nat>>)
    requires Divisible(table) && SlabShape(table, sl)
    ensures |r| == |table| && forall c | 0 <= c < |r| :: r[c] == StackOf(table, sl, c)
  {
    seq(|table|, c requires 0 <= c < |table| => StackOf(table, sl, c))
  }

  ghost predicate Shaped(table: seq<SizeClass>, slabs: seq<CpuSlab>)
    requires Divisible(table)
  {
    forall x | 0 <= x < |slabs| :: SlabShape(table, slabs[x])
  }

  /** The stacks the slabs hold, by CPU and class. */
  ghost function Stacks(table: seq<SizeClass>, slabs: seq<CpuSlab>): (r: seq<seq<seq<nat>>>)
    requires Divisible(table) && Shaped(table, slabs)
    ensures |r| == |slabs| && forall x | 0 <= x < |r| :: r[x] == SlabStacks(table, slabs[x])
  {
    seq(|slabs|, x requires 0 <= x < |slabs| => SlabStacks(table, slabs[x]))
  }

  // ---- invariant ----

  ghost predicate InSection(pc: Pc) {
    pc.LoadCount? || pc.CheckCpu? || pc.Access? || pc.Commit?
  }

  /** A thread in the section still runs on the CPU it read, and what it loaded is still there. */
  ghost predicate ThreadFits(table: seq<SizeClass>, slabs: seq<CpuSlab>, th: Thread)
    requires Divisible(table) && Shaped(table, slabs)
  {
    && (!th.pc.Idle? ==> th.cls < |table|)
    && (InSection(th.pc) ==> th.on == Some(th.cpu) && th.cpu < |slabs|)
    && (th.pc.CheckCpu? || th.pc.Access? || th.pc.Commit? ==> th.cur == slabs[th.cpu].counts[th.cls])
    && (th.pc.Access? || th.pc.Commit? ==> !Refused(table, th))
    && (th.pc.Commit? ==>
          var i := Slot(table, th);
          0 <= i < |slabs[th.cpu].pointers|
          && slabs[th.cpu].pointers[i] == if th.op.Pop? then th.top else th.op.ptr)
  }

  ghost predicate Exclusive(threads: seq<Thread>) {
    forall t, u | 0 <= t < u < |threads| && threads[t].on.Some? :: threads[t].on != threads[u].on
  }

  ghost predicate Sound(table: seq<SizeClass>, s: State)
    requires Divisible(table)
  {
    && Shaped(table, s.slabs) && Exclusive(s.threads)
    && forall t | 0 <= t < |s.threads| :: ThreadFits(table, s.slabs, s.threads[t])
  }

  // ---- one step ----

  /** The slot of a section lies in the slice of its class. */
  lemma SlotInSlice(table: seq<SizeClass>, sl: CpuSlab, th: Thread)
    requires Divisible(table) && SlabShape(table, sl) && th.cls < |table|
    requires th.cur == sl.counts[th.cls] && !Refused(table, th)
    ensures Offset(table, th.cls) <= Slot(table, th) < Offset(table, th.cls) + Capacity(table, th.cls) <= |sl.pointers|
  {
    SlicesApart(table, th.cls, |table|);
  }

  lemma StoreAboveOne(table: seq<SizeClass>, sl: CpuSlab, c: nat, i: nat, p: nat, d: nat)
    requires Divisible(table) && SlabShape(table, sl) && c < |table| && d < |table|
    requires Offset(table, c) + sl.counts[c] <= i < Offset(table, c) + Capacity(table, c) && i < |sl.pointers|
    ensures SlabShape(table, sl.(pointers := sl.pointers[i := p]))
    ensures StackOf(table, sl.(pointers := sl.pointers[i := p]), d) == StackOf(table, sl, d)
  {
    hide Offset, Capacity, Divisible;
    if d != c { SlicesDisjoint(table, c, d); }
    SlicesApart(table, d, |table|);
  }

  /** Storing above the top of a stack changes no stack. */
  lemma StoreAbove(table: seq<SizeClass>, sl: CpuSlab, c: nat, i: nat, p: nat)
    requires Divisible(table) && SlabShape(table, sl) && c < |table|
    requires Offset(table, c) + sl.counts[c] <= i < Offset(table, c) + Capacity(table, c) && i < |sl.pointers|
    ensures SlabShape(table, sl.(pointers := sl.pointers[i := p]))
    ensures SlabStacks(table, sl.(pointers := sl.pointers[i := p])) == SlabStacks(table, sl)
  {
    hide Offset, Capacity, Divisible, SlabShape, StackOf;
    StoreAboveOne(table, sl, c, i, p, c);
    forall d | 0 <= d < |table|
      ensures StackOf(table, sl.(pointers := sl.pointers[i := p]), d) == StackOf(table, sl, d)
    {
      StoreAboveOne(table, sl, c, i, p, d);
    }
  }

  /** Storing a count changes the stack of that class only. */
  lemma StoreCount(table: seq<SizeClass>, sl: CpuSlab, c: nat, n: nat)
    requires Divisible(table) && SlabShape(table, sl) && c < |table| && n <= Capacity(table, c)
    ensures Offset(table, c) + n <= |sl.pointers|
    ensures SlabShape(table, sl.(counts := sl.counts[c := n]))
    ensures SlabStacks(table, sl.(counts := sl.counts[c := n]))
            == SlabStacks(table, sl)[c := sl.pointers[Offset(table, c)..Offset(table, c) + n]]
  {
    hide Offset, Capacity, Divisible;
    SlicesApart(table, c, |table|);
    var sl' := sl.(counts := sl.counts[c := n]);
    assert forall d | 0 <= d < |table| && d != c :: StackOf(table, sl', d) == StackOf(table, sl, d);
  }

  lemma StacksReplace(table: seq<SizeClass>, slabs: seq<CpuSlab>, x: nat, sl: CpuSlab)
    requires Divisible(table) && Shaped(table, slabs) && x < |slabs| && SlabShape(table, sl)
    ensures Shaped(table, slabs[x := sl])
    ensures Stacks(table, slabs[x := sl]) == Stacks(table, slabs)[x := SlabStacks(table, sl)]
  {
    hide SlabShape, Divisible, SlabStacks;
    var slabs' := slabs[x := sl];
    assert forall y | 0 <= y < |slabs'| :: slabs'[y] == if y == x then sl else slabs[y];
  }

  /** What the stacks are after the commit store of thread th. */
  ghost function Committed(stacks: seq<seq<seq<nat>>>, th: Thread): seq<seq<seq<nat>>>
    requires th.cpu < |stacks| && th.cls < |stacks[th.cpu]|
    requires th.op.Pop? ==> stacks[th.cpu][th.cls] != []
  {
    var stack := stacks[th.cpu][th.cls];
    stacks[th.cpu := stacks[th.cpu][th.cls := match th.op
                                              case Pop => stack[..|stack| - 1]
                                              case Push(p) => stack + [p]]]
  }

  /** Replacing the slab of one CPU and its thread keeps the other threads sound. */
  lemma OthersFit(table: seq<SizeClass>, s: State, t: nat, x: nat, sl: CpuSlab)
    requires Divisible(table) && Sound(table, s) && t < |s.threads| && s.threads[t].on == Some(x) && x < |s.slabs|
    requires SlabShape(table, sl) && Shaped(table, s.slabs[x := sl])
    ensures forall u | 0 <= u < |s.threads| && u != t :: ThreadFits(table, s.slabs[x := sl], s.threads[u])
  {
    hide SlabShape, Divisible, Refused, Slot;
    forall u | 0 <= u < |s.threads| && u != t
      ensures ThreadFits(table, s.slabs[x := sl], s.threads[u])
    {
      assert ThreadFits(table, s.slabs, s.threads[u]);
    }
  }

  lemma QuietSound(table: seq<SizeClass>, s: State, t: nat, s': State)
    requires Divisible(table) && Sound(table, s) && t < |s.threads|
    requires s'.slabs == s.slabs && |s'.threads| == |s.threads| && s'.threads == s.threads[t := s'.threads[t]]
    requires ThreadFits(table, s.slabs, s'.threads[t])
    requires s'.threads[t].on == s.threads[t].on || s'.threads[t].on.None?
             || forall u | 0 <= u < |s.threads| :: s.threads[u].on != s'.threads[t].on
    ensures Sound(table, s')
  {
    hide ThreadFits, Divisible, Shaped;
  }

  lemma AccessSound(table: seq<SizeClass>, s: State, t: nat, s': State)
    requires Divisible(table) && Sound(table, s) && t < |s.threads| && AccessStep(table, s, t, s')
    ensures Sound(table, s') && Stacks(table, s'.slabs) == Stacks(table, s.slabs)
  {
    hide SlabShape, Divisible, Offset, Capacity, SlabStacks;
    var th, x := s.threads[t], s.threads[t].cpu;
    assert ThreadFits(table, s.slabs, th);
    if th.op.Pop? {
      QuietSound(table, s, t, s');
    } else {
      var i: nat, sl := Slot(table, th), s.slabs[x];
      var sl' := sl.(pointers := sl.pointers[i := th.op.ptr]);
      SlotInSlice(table, sl, th);
      StoreAbove(table, sl, th.cls, i, th.op.ptr);
      StacksReplace(table, s.slabs, x, sl');
      OthersFit(table, s, t, x, sl');
    }
  }

  lemma SliceGrown(s: seq<nat>, at: nat, n: nat)
    ensures at + n < |s| ==> s[at..at + n + 1] == s[at..at + n] + [s[at + n]]
    ensures 0 < n && at + n <= |s| ==> s[at..at + n - 1] == s[at..at + n][..n - 1]
  {
  }

  /** A commit is one atomic push or pop: of the very pointer the section read or wrote, on the CPU
      it ran on, with room or something to take. */
  lemma CommitSound(table: seq<SizeClass>, s: State, t: nat, s': State)
    requires Divisible(table) && Sound(table, s) && t < |s.threads| && CommitStep(s, t, s')
    ensures Sound(table, s')
    ensures var th, stacks := s.threads[t], Stacks(table, s.slabs);
            && th.on == Some(th.cpu) && th.cpu < |stacks| && th.cls < |stacks[th.cpu]|
            && var stack := stacks[th.cpu][th.cls];
               && (match th.op
                   case Pop => stack != [] && stack[|stack| - 1] == th.top
                   case Push(_) => |stack| < Capacity(table, th.cls))
               && Stacks(table, s'.slabs) == Committed(stacks, th)
  {
    hide SlabShape, Divisible, Offset, Capacity, SlabStacks;
    var th, x := s.threads[t], s.threads[t].cpu;
    assert ThreadFits(table, s.slabs, th);
    var sl := s.slabs[x];
    var n: nat := if th.op.Pop? then th.cur - 1 else th.cur + 1;
    SlotInSlice(table, sl, th);
    CountFits(table, sl, th);
    StoreCount(table, sl, th.cls, n);
    StacksReplace(table, s.slabs, x, sl.(counts := sl.counts[th.cls := n]));
    OthersFit(table, s, t, x, sl.(counts := sl.counts[th.cls := n]));
    SliceGrown(sl.pointers, Offset(table, th.cls), th.cur);
  }

  lemma CountFits(table: seq<SizeClass>, sl: CpuSlab, th: Thread)
    requires Divisible(table) && SlabShape(table, sl) && th.cls < |table|
    requires th.cur == sl.counts[th.cls] && !Refused(table, th)
    ensures if th.op.Pop? then 0 < th.cur <= Capacity(table, th.cls) else th.cur + 1 <= Capacity(table, th.cls)
  {
  }

  /** A section that reports nothing to pop, or no room, says what holds at that moment. */
  lemma RefusalHonest(table: seq<SizeClass>, s: State, t: nat, s': State)
    requires Divisible(table) && Sound(table, s) && t < |s.threads|
    requires CheckCpuStep(table, s, t, s') && s'.threads[t].pc.Idle?
    ensures var th, stacks := s.threads[t], Stacks(table, s.slabs);
            && th.on == Some(th.cpu) && th.cpu < |stacks| && th.cls < |stacks[th.cpu]|
            && (if th.op.Pop? then stacks[th.cpu][th.cls] == []
                else |stacks[th.cpu][th.cls]| == Capacity(table, th.cls))
  {
    hide Divisible, Offset, Capacity;
    assert ThreadFits(table, s.slabs, s.threads[t]);
  }

  /** Every step but a commit leaves every stack as it was. */
  lemma StepAtomic(table: seq<SizeClass>, s: State, t: nat, cpu: nat, op: Op, c: nat, s': State)
    requires Divisible(table) && Sound(table, s) && ThreadStep(table, s, t, cpu, op, c, s')
    ensures Sound(table, s')
    ensures !CommitStep(s, t, s') ==> Stacks(table, s'.slabs) == Stacks(table, s.slabs)
  {
    hide Divisible, Offset, Capacity, Stacks, SlabStacks, Shaped, SlabShape, Exclusive, Sound;
    if CommitStep(s, t, s') {
      CommitSound(table, s, t, s');
    } else if AccessStep(table, s, t, s') {
      AccessSound(table, s, t, s');
    } else {
      QuietStep(table, s, t, cpu, op, c, s');
    }
  }

  lemma QuietStep(table: seq<SizeClass>, s: State, t: nat, cpu: nat, op: Op, c: nat, s': State)
    requires Divisible(table) && Sound(table, s) && ThreadStep(table, s, t, cpu, op, c, s')
    requires !CommitStep(s, t, s') && !AccessStep(table, s, t, s')
    ensures Sound(table, s') && s'.slabs == s.slabs
  {
    hide Divisible, Offset, Capacity, SlabShape, CommitStep, AccessStep, Exclusive, Slot;
    assert ThreadFits(table, s.slabs, s.threads[t]);
    QuietSound(table, s, t, s');
  }

  // ---- a section nothing interrupts ----

  ghost predicate SectionStep(table: seq<SizeClass>, s: State, t: nat, s': State)
    requires Divisible(table) && t < |s.threads|
  {
    || ReadCpuStep(s, t, s') || LoadCountStep(s, t, s') || CheckCpuStep(table, s, t, s') || AccessStep(table, s, t, s')
    || CommitStep(s, t, s') || DisarmStep(s, t, s')
  }

  /** How many steps into its section a thread is. */
  function StepsIn(pc: Pc): nat {
    match pc
    case ReadCpu => 0
    case LoadCount => 1
    case CheckCpu => 2
    case Access => 3
    case Commit => 4
    case Disarm => 5
    case _ => 6
  }

  /** What a section that began in state s0 on CPU x has done. */
  ghost predicate SectionDone(table: seq<SizeClass>, s0: State, s: State, t: nat, x: nat)
    requires Divisible(table) && Sound(table, s0) && Sound(table, s) && t < |s0.threads| && t < |s.threads|
    requires s0.threads[t].cls < |table| && x < |s0.slabs|
  {
    var op, c, th := s0.threads[t].op, s0.threads[t].cls, s.threads[t];
    var before, after := Stacks(table, s0.slabs), Stacks(table, s.slabs);
    var stack := before[x][c];
    if th.pc.Idle? then
      after == before && if op.Pop? then stack == [] else |stack| == Capacity(table, c)
    else if th.pc.Disarm? || th.pc.Report? then
      match op
      case Pop =>
        stack != [] && th.top == stack[|stack| - 1] && after == before[x := before[x][c := stack[..|stack| - 1]]]
      case Push(p) =>
        |stack| < Capacity(table, c) && after == before[x := before[x][c := stack + [p]]]
    else after == before
  }

  ghost predicate Within(s0: State, s: State, t: nat, x: nat)
    requires t < |s0.threads|
  {
    && |s.threads| == |s0.threads| && |s.slabs| == |s0.slabs|
    && var th, th0 := s.threads[t], s0.threads[t];
       && th.on == Some(x) && th.op == th0.op && th.cls == th0.cls && (!th.pc.ReadCpu? ==> th.cpu == x)
  }

  lemma SectionMoves(table: seq<SizeClass>, s0: State, s: State, t: nat, x: nat, s': State)
    requires Divisible(table) && Sound(table, s) && t < |s0.threads| && x < |s0.slabs|
    requires Within(s0, s, t, x) && SectionStep(table, s, t, s')
    ensures Sound(table, s') && Within(s0, s', t, x)
    ensures !s.threads[t].pc.Idle? && !s.threads[t].pc.Report?
    ensures StepsIn(s'.threads[t].pc) == StepsIn(s.threads[t].pc) + 1 || s'.threads[t].pc.Idle?
    ensures s'.threads[t].pc.Idle? ==> s.threads[t].pc.CheckCpu? && CheckCpuStep(table, s, t, s')
    ensures s'.threads[t].pc.Disarm? ==> s.threads[t].pc.Commit? && CommitStep(s, t, s')
    ensures s'.threads[t].pc.Report? ==> s.threads[t].pc.Disarm? && s'.threads[t].top == s.threads[t].top
    ensures CommitStep(s, t, s') ==> s'.threads[t].pc.Disarm? && s'.threads[t].top == s.threads[t].top
  {
    hide Divisible, Offset, Capacity, SlabShape, Exclusive, Slot;
    assert ThreadFits(table, s.slabs, s.threads[t]);
    assert ThreadStep(table, s, t, 0, Pop, 0, s');
    assert Sound(table, s') by {
      hide CommitStep, AccessStep, ReadCpuStep, LoadCountStep, CheckCpuStep, DisarmStep, Sound, SectionStep;
      StepAtomic(table, s, t, 0, Pop, 0, s');
    }
  }

  /** A section that is neither preempted nor moved ends after at most six steps: a pop has taken the top of its
      CPU's stack or reports that it is empty, a push has put its pointer there or reports that it is full. */
  lemma {:induction false} SectionAlone(table: seq<SizeClass>, states: seq<State>, t: nat, x: nat)
    requires Divisible(table) && states != [] && Sound(table, states[0]) && t < |states[0].threads|
    requires states[0].threads[t].on == Some(x) && states[0].threads[t].pc.ReadCpu? && x < |states[0].slabs|
    requires forall i | 0 <= i < |states| - 1 ::
               t < |states[i].threads| && SectionStep(table, states[i], t, states[i + 1])
    ensures var s := states[|states| - 1];
            && Sound(table, s) && Within(states[0], s, t, x) && states[0].threads[t].cls < |table|
            && |states| - 1 <= StepsIn(s.threads[t].pc) <= 6 && SectionDone(table, states[0], s, t, x)
    decreases |states|
  {
    hide Divisible, Capacity, Sound, Stacks, SectionStep, CommitStep, CheckCpuStep;
    var n := |states| - 1;
    ClassInTable(table, states[0], t);
    if n > 0 {
      SectionAlone(table, states[..n], t, x);
      var s, s' := states[n - 1], states[n];
      SectionMoves(table, states[0], s, t, x, s');
      SectionEffect(table, s, t, s');
    }
  }

  lemma ClassInTable(table: seq<SizeClass>, s: State, t: nat)
    requires Divisible(table) && Sound(table, s) && t < |s.threads|
    ensures !s.threads[t].pc.Idle? ==> s.threads[t].cls < |table|
  {
    assert ThreadFits(table, s.slabs, s.threads[t]);
  }

  lemma SectionEffect(table: seq<SizeClass>, s: State, t: nat, s': State)
    requires Divisible(table) && Sound(table, s) && Sound(table, s') && t < |s.threads| && SectionStep(table, s, t, s')
    requires t < |s'.threads|
    ensures var th, before, after := s.threads[t], Stacks(table, s.slabs), Stacks(table, s'.slabs);
            && (!CommitStep(s, t, s') ==> after == before)
            && (CommitStep(s, t, s') || (CheckCpuStep(table, s, t, s') && s'.threads[t].pc.Idle?) ==>
                  && th.cpu < |before| && th.cls < |before[th.cpu]|
                  && var stack := before[th.cpu][th.cls];
                     if CommitStep(s, t, s') then
                       match th.op
                       case Pop =>
                         && stack != [] && th.top == stack[|stack| - 1]
                         && after == before[th.cpu := before[th.cpu][th.cls := stack[..|stack| - 1]]]
                       case Push(p) =>
                         && |stack| < Capacity(table, th.cls)
                         && after == before[th.cpu := before[th.cpu][th.cls := stack + [p]]]
                     else if th.op.Pop? then stack == [] else |stack| == Capacity(table, th.cls))
  {
    hide Divisible, Capacity, Sound, Stacks, CommitStep, AccessStep, ReadCpuStep, LoadCountStep, CheckCpuStep,
         DisarmStep;
    assert ThreadStep(table, s, t, 0, Pop, 0, s');
    StepAtomic(table, s, t, 0, Pop, 0, s');
    if CommitStep(s, t, s') {
      CommitSound(table, s, t, s');
    } else if CheckCpuStep(table, s, t, s') && s'.threads[t].pc.Idle? {
      RefusalHonest(table, s, t, s');
    }
  }

  // ---- conservation ----

  /** An operation that has committed and not returned yet. */
  ghost predicate Done(pc: Pc) {
    pc.Disarm? || pc.Report?
  }

  ghost function PopsNow(th: Thread, p: nat): nat {
    if Done(th.pc) && th.op.Pop? && th.top == p then 1 else 0
  }

  ghost function PushesNow(th: Thread, p: nat): nat {
    if Done(th.pc) && th.op == Push(p) then 1 else 0
  }

  ghost function Popping(threads: seq<Thread>, p: nat): (r: seq<nat>)
    ensures |r| == |threads| && forall t | 0 <= t < |r| :: r[t] == PopsNow(threads[t], p)
  {
    seq(|threads|, t requires 0 <= t < |threads| => PopsNow(threads[t], p))
  }

  ghost function Pushing(threads: seq<Thread>, p: nat): (r: seq<nat>)
    ensures |r| == |threads| && forall t | 0 <= t < |r| :: r[t] == PushesNow(threads[t], p)
  {
    seq(|threads|, t requires 0 <= t < |threads| => PushesNow(threads[t], p))
  }

  ghost function OnStacks(table: seq<SizeClass>, s: State, p: nat): nat
    requires Divisible(table) && Shaped(table, s.slabs)
  {
    Sum(InSlabs(Stacks(table, s.slabs), p))
  }

  /** What was pushed is on a stack or was popped, but for what late aborts lost and doubled. */
  ghost predicate Balanced(table: seq<SizeClass>, s: State)
    requires Divisible(table) && Shaped(table, s.slabs)
  {
    forall p: nat ::
      OnStacks(table, s, p) + Sum(Popping(s.threads, p)) + s.popped[p] + s.lost[p]
      == Sum(Pushing(s.threads, p)) + s.pushed[p] + s.doubled[p]
  }

  ghost predicate Inv(table: seq<SizeClass>, s: State)
    requires Divisible(table)
  {
    Sound(table, s) && Balanced(table, s)
  }

  lemma ThreadDelta(threads: seq<Thread>, t: nat, th: Thread, p: nat)
    requires t < |threads|
    ensures Sum(Popping(threads[t := th], p)) + PopsNow(threads[t], p) == Sum(Popping(threads, p)) + PopsNow(th, p)
    ensures Sum(Pushing(threads[t := th], p)) + PushesNow(threads[t], p) == Sum(Pushing(threads, p)) + PushesNow(th, p)
  {
    hide Sum, PopsNow, PushesNow;
    SumUpdate(Popping(threads, p), t, PopsNow(th, p));
    assert Popping(threads[t := th], p) == Popping(threads, p)[t := PopsNow(th, p)];
    SumUpdate(Pushing(threads, p), t, PushesNow(th, p));
    assert Pushing(threads[t := th], p) == Pushing(threads, p)[t := PushesNow(th, p)];
  }

  lemma CommitCounts(stacks: seq<seq<seq<nat>>>, th: Thread, p: nat)
    requires th.cpu < |stacks| && th.cls < |stacks[th.cpu]|
    requires th.op.Pop? ==>
        stacks[th.cpu][th.cls] != [] && stacks[th.cpu][th.cls][|stacks[th.cpu][th.cls]| - 1] == th.top
    ensures var n, n' := Sum(InSlabs(stacks, p)), Sum(InSlabs(Committed(stacks, th), p));
            match th.op
            case Pop => n == n' + if th.top == p then 1 else 0
            case Push(q) => n' == n + if q == p then 1 else 0
  {
    hide Sum, Count;
    var stack := stacks[th.cpu][th.cls];
    match th.op
    case Pop =>
      var k := |stack| - 1;
      StackUpdate(stacks, th.cpu, th.cls, stack[..k], p);
      CountSplit(stack, k, p);
      CountOne(th.top, p);
      assert stack[k..] == [th.top];
    case Push(q) =>
      StackUpdate(stacks, th.cpu, th.cls, stack + [q], p);
      CountJoin(stack, [q], p);
      CountOne(q, p);
  }

  lemma CommitBalanced(table: seq<SizeClass>, s: State, t: nat, s': State)
    requires Divisible(table) && Inv(table, s) && t < |s.threads| && CommitStep(s, t, s')
    ensures Inv(table, s')
  {
    hide Divisible, Offset, Capacity, Stacks, Sum, InSlabs, Shaped, ThreadFits, Exclusive, Committed;
    CommitSound(table, s, t, s');
    forall p: nat
      ensures OnStacks(table, s', p) + Sum(Popping(s'.threads, p)) + s'.popped[p] + s'.lost[p]
              == Sum(Pushing(s'.threads, p)) + s'.pushed[p] + s'.doubled[p]
    {
      CommitCounts(Stacks(table, s.slabs), s.threads[t], p);
      ThreadDelta(s.threads, t, s'.threads[t], p);
    }
  }

  /** Only thread t changes, and what it no longer holds is reported, lost or doubled. */
  ghost predicate Booked(s: State, t: nat, s': State, p: nat)
    requires t < |s.threads|
  {
    && |s'.threads| == |s.threads| && s'.threads == s.threads[t := s'.threads[t]]
    && PopsNow(s'.threads[t], p) + s'.popped[p] + s'.lost[p] == PopsNow(s.threads[t], p) + s.popped[p] + s.lost[p]
    && PushesNow(s'.threads[t], p) + s'.pushed[p] + s'.doubled[p]
       == PushesNow(s.threads[t], p) + s.pushed[p] + s.doubled[p]
  }

  lemma PreemptBooks(s: State, t: nat, s': State, p: nat)
    requires t < |s.threads| && PreemptStep(s, t, s')
    ensures Booked(s, t, s', p)
  {
  }

  lemma AccessBooks(table: seq<SizeClass>, s: State, t: nat, s': State, p: nat)
    requires Divisible(table) && t < |s.threads| && AccessStep(table, s, t, s')
    ensures Booked(s, t, s', p)
  {
    hide Divisible, Slot;
  }

  /** A step that commits nothing moves pointers from the operations under way to what they
      report, or to what a late abort loses or doubles. */
  lemma StepBooks(table: seq<SizeClass>, s: State, t: nat, cpu: nat, op: Op, c: nat, s': State, p: nat)
    requires Divisible(table) && ThreadStep(table, s, t, cpu, op, c, s') && !CommitStep(s, t, s')
    ensures Booked(s, t, s', p)
  {
    hide Divisible, CommitStep, Refused, PreemptStep, AccessStep;
    if PreemptStep(s, t, s') {
      PreemptBooks(s, t, s', p);
    } else if AccessStep(table, s, t, s') {
      AccessBooks(table, s, t, s', p);
    }
  }

  lemma OtherBalanced(table: seq<SizeClass>, s: State, t: nat, cpu: nat, op: Op, c: nat, s': State)
    requires Divisible(table) && Inv(table, s) && ThreadStep(table, s, t, cpu, op, c, s') && !CommitStep(s, t, s')
    ensures Inv(table, s')
  {
    hide Divisible, Stacks, Sum, InSlabs, Shaped, ThreadFits, Exclusive, PopsNow, PushesNow, ScheduleStep,
         PreemptStep, BeginStep, ReadCpuStep, LoadCountStep, CheckCpuStep, AccessStep, CommitStep, DisarmStep,
         ReportStep;
    StepAtomic(table, s, t, cpu, op, c, s');
    StepBooks(table, s, t, cpu, op, c, s', 0);
    forall p: nat
      ensures OnStacks(table, s', p) + Sum(Popping(s'.threads, p)) + s'.popped[p] + s'.lost[p]
              == Sum(Pushing(s'.threads, p)) + s'.pushed[p] + s'.doubled[p]
    {
      StepBooks(table, s, t, cpu, op, c, s', p);
      ThreadDelta(s.threads, t, s'.threads[t], p);
    }
  }

  // ---- runs ----

  lemma InitInv(table: seq<SizeClass>, s: State)
    requires Divisible(table) && Init(table, s)
    ensures Inv(table, s)
  {
    hide Divisible, Offset, Capacity, Sum;
    forall p: nat
      ensures OnStacks(table, s, p) == 0 && Sum(Popping(s.threads, p)) == 0 && Sum(Pushing(s.threads, p)) == 0
    {
      var stacks := Stacks(table, s.slabs);
      forall x | 0 <= x < |stacks|
        ensures Sum(InStacks(stacks[x], p)) == 0
      {
        assert forall c | 0 <= c < |stacks[x]| :: stacks[x][c] == [];
        SumZero(InStacks(stacks[x], p));
      }
      SumZero(InSlabs(stacks, p));
      SumZero(Popping(s.threads, p));
      SumZero(Pushing(s.threads, p));
    }
  }

  /** In every run, whatever is preempted where, the stacks hold what was pushed and not popped,
      but for what late aborts lost and doubled. */
  lemma {:induction false} RunBalanced(table: seq<SizeClass>, states: seq<State>)
    requires Divisible(table) && Run(table, states)
    ensures Inv(table, states[|states| - 1])
    decreases |states|
  {
    hide Divisible, Init, Inv, ThreadStep, CommitStep;
    var n := |states| - 1;
    if n == 0 {
      InitInv(table, states[0]);
    } else {
      RunBalanced(table, states[..n]);
      var s, s' := states[n - 1], states[n];
      assert Next(table, s, s');
      var t, cpu, op, c :| ThreadStep(table, s, t, cpu, op, c, s');
      StepInv(table, s, t, cpu, op, c, s');
    }
  }

  lemma StepInv(table: seq<SizeClass>, s: State, t: nat, cpu: nat, op: Op, c: nat, s': State)
    requires Divisible(table) && Inv(table, s) && ThreadStep(table, s, t, cpu, op, c, s')
    ensures Inv(table, s')
  {
    hide Divisible, Inv, CommitStep;
    if CommitStep(s, t, s') {
      CommitBalanced(table, s, t, s');
    } else {
      OtherBalanced(table, s, t, cpu, op, c, s');
    }
  }

  /** Every pointer pushed is on a stack or was popped, once. */
  ghost predicate Conserved(table: seq<SizeClass>, s: State)
    requires Divisible(table) && Shaped(table, s.slabs)
  {
    forall p: nat ::
      OnStacks(table, s, p) + Sum(Popping(s.threads, p)) + s.popped[p] == Sum(Pushing(s.threads, p)) + s.pushed[p]
  }

  /** Pointers are conserved exactly when late aborts lost and doubled the same ones, in particular
      when there were none: aborts up to the commit store never matter. */
  lemma ConservedExactly(table: seq<SizeClass>, states: seq<State>)
    requires Divisible(table) && Run(table, states)
    ensures Shaped(table, states[|states| - 1].slabs)
    ensures Conserved(table, states[|states| - 1]) <==> states[|states| - 1].lost == states[|states| - 1].doubled
  {
    hide Divisible, OnStacks, Sum;
    RunBalanced(table, states);
    var s := states[|states| - 1];
    if Conserved(table, s) {
      forall p: nat
        ensures s.lost[p] == s.doubled[p]
      {
        assert OnStacks(table, s, p) + Sum(Popping(s.threads, p)) + s.popped[p]
               == Sum(Pushing(s.threads, p)) + s.pushed[p];
      }
    }
  }

  lemma Extend(table: seq<SizeClass>, states: seq<State>, t: nat, cpu: nat, op: Op, c: nat, s': State)
    returns (longer: seq<State>)
    requires Divisible(table) && Run(table, states) && ThreadStep(table, states[|states| - 1], t, cpu, op, c, s')
    ensures Run(table, longer) && longer != [] && longer[|longer| - 1] == s'
  {
    hide Divisible, ThreadStep, Init;
    longer := states + [s'];
    assert Next(table, states[|states| - 1], s');
  }

  ghost function EmptySlab(table: seq<SizeClass>): CpuSlab
    requires Divisible(table)
  {
    CpuSlab(seq(|table|, _ => 0), seq(Offset(table, |table|), _ => 0))
  }

  /** A run of one thread entering a push. */
  lemma EnterRun(table: seq<SizeClass>, p: nat) returns (states: seq<State>)
    requires Divisible(table) && |table| >= 2
    ensures Run(table, states) && states != []
    ensures states[|states| - 1] == State([EmptySlab(table)], [Thread(Some(0), Push(p), 1, LoadCount, 0, 0, 0)],
                                          multiset{}, multiset{}, multiset{}, multiset{})
  {
    hide Divisible, Offset, Capacity;
    var th := Thread(None, Pop, 0, Idle, 0, 0, 0);
    var s0 := State([EmptySlab(table)], [th], multiset{}, multiset{}, multiset{}, multiset{});
    assert Run(table, [s0]);
    var s1 := Update(s0, 0, th.(on := Some(0)));
    states := Extend(table, [s0], 0, 0, Pop, 0, s1);
    var s2 := Update(s1, 0, s1.threads[0].(op := Push(p), cls := 1, pc := ReadCpu));
    states := Extend(table, states, 0, 0, Push(p), 1, s2);
    var s3 := Update(s2, 0, s2.threads[0].(cpu := 0, pc := LoadCount));
    states := Extend(table, states, 0, 0, Pop, 0, s3);
  }

  /** A run of one thread pushing one pointer, up to the last access of the section. */
  lemma PushRun(table: seq<SizeClass>, p: nat) returns (states: seq<State>)
    requires Divisible(table) && |table| >= 2
    ensures Run(table, states) && states != []
    ensures var s := states[|states| - 1];
            && |s.threads| == 1 && s.threads[0].pc.Disarm? && s.threads[0].on.Some? && s.threads[0].op == Push(p)
            && s.lost == s.doubled == multiset{}
  {
    hide Divisible, Offset, Capacity, Init, Run;
    CapacityLaws(table, 1);
    SlicesApart(table, 1, |table|);
    states := EnterRun(table, p);
    var s3, slab := states[|states| - 1], EmptySlab(table);
    var s4 := Update(s3, 0, s3.threads[0].(cur := 0, pc := CheckCpu));
    states := Extend(table, states, 0, 0, Pop, 0, s4);
    var s5 := Update(s4, 0, s4.threads[0].(pc := Access));
    states := Extend(table, states, 0, 0, Pop, 0, s5);
    var slab1 := slab.(pointers := slab.pointers[Offset(table, 1) := p]);
    var s6 := Update(s5, 0, s5.threads[0].(pc := Commit)).(slabs := s5.slabs[0 := slab1]);
    states := Extend(table, states, 0, 0, Pop, 0, s6);
    var s7 := Update(s6, 0, s6.threads[0].(pc := Disarm))
                .(slabs := s6.slabs[0 := slab1.(counts := slab1.counts[1 := 1])]);
    states := Extend(table, states, 0, 0, Pop, 0, s7);
  }

  /** An abort between the commit store and the disarming one breaks conservation: a thread pushes
      a pointer once and is about to push it again. */
  lemma LateAbortDoubles(table: seq<SizeClass>, p: nat) returns (states: seq<State>)
    requires Divisible(table) && |table| >= 2
    ensures Run(table, states) && Shaped(table, states[|states| - 1].slabs)
    ensures !Conserved(table, states[|states| - 1])
  {
    hide Divisible, Init, Conserved, Run;
    var before := PushRun(table, p);
    var s := before[|before| - 1];
    var s' := Update(s, 0, s.threads[0].(on := None, pc := ReadCpu)).(doubled := s.doubled + multiset{p});
    states := Extend(table, before, 0, 0, Pop, 0, s');
    assert p in s'.doubled && p !in s'.lost;
    ConservedExactly(table, states);
  }
}
