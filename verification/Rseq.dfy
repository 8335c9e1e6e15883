/** The restartable push and pop of the per-CPU slabs (slabs.hpp) as a step machine: any number of
    threads on any number of CPUs, one instruction that touches shared memory per step, preempted
    and migrated at will. */
module RseqSteps {
  import opened Widths
  import opened SizeClasses
  import opened SlabLayout

  /** One CPU's slab in memory. */
  datatype CpuSlab = CpuSlab(counts: seq<nat>, pointers: seq<nat>)

  datatype Op = Push(ptr: nat) | Pop

  /** Where a thread is in the section; each name is the access it makes next. */
  datatype Pc =
    | Idle
    | ReadCpu     // section armed; read cpu_id_start
    | LoadCount   // read the class's count
    | CheckCpu    // compare cpu_id, then the count
    | Access      // pop: read the top pointer; push: store the pointer above the top
    | Commit      // store the new count
    | Disarm      // clear the section descriptor
    | Report      // return

  /** A thread: the CPU it runs on, if any, and its registers. */
  datatype Thread = Thread(on: Option<nat>, op: Op, cls: nat, pc: Pc, cpu: nat, cur: nat, top: nat)

  /** `pushed` and `popped` are what returned operations reported. A late abort hits a section
      between its commit and the store that disarms it: `lost` are the pointers of such pops,
      `doubled` those of such pushes. */
  datatype State = State(slabs: seq<CpuSlab>, threads: seq<Thread>,
                         pushed: multiset<nat>, popped: multiset<nat>,
                         lost: multiset<nat>, doubled: multiset<nat>)

  ghost predicate SlabShape(table: seq<SizeClass>, sl: CpuSlab)
    requires Divisible(table)
  {
    && |sl.counts| == |table| && |sl.pointers| == Offset(table, |table|)
    && forall c | 0 <= c < |table| :: sl.counts[c] <= Capacity(table, c)
  }

  ghost predicate Init(table: seq<SizeClass>, s: State)
    requires Divisible(table)
  {
    && (forall x | 0 <= x < |s.slabs| ::
          SlabShape(table, s.slabs[x]) && forall c | 0 <= c < |table| :: s.slabs[x].counts[c] == 0)
    && (forall t | 0 <= t < |s.threads| :: s.threads[t].on.None? && s.threads[t].pc.Idle?)
    && s.pushed == s.popped == s.lost == s.doubled == multiset{}
  }

  function Update(s: State, t: nat, th: Thread): State
    requires t < |s.threads|
  {
    s.(threads := s.threads[t := th])
  }

  // ---- the kernel ----

  /** A CPU runs one thread at a time. */
  ghost predicate ScheduleStep(s: State, t: nat, cpu: nat, s': State)
    requires t < |s.threads|
  {
    && s.threads[t].on.None? && (forall u | 0 <= u < |s.threads| :: s.threads[u].on != Some(cpu))
    && s' == Update(s, t, s.threads[t].(on := Some(cpu)))
  }

  /** Taken off its CPU inside an armed section, a thread restarts the section from the top. */
  ghost predicate PreemptStep(s: State, t: nat, s': State)
    requires t < |s.threads|
  {
    var th := s.threads[t];
    && th.on.Some?
    && if th.pc.Idle? || th.pc.Report? then s' == Update(s, t, th.(on := None))
       else
         var s1 := Update(s, t, th.(on := None, pc := ReadCpu));
         s' == if !th.pc.Disarm? then s1
               else if th.op.Pop? then s1.(lost := s.lost + multiset{th.top})
               else s1.(doubled := s.doubled + multiset{th.op.ptr})
  }

  // ---- the section ----

  ghost predicate BeginStep(table: seq<SizeClass>, s: State, t: nat, op: Op, c: nat, s': State)
    requires t < |s.threads|
  {
    var th := s.threads[t];
    && th.on.Some? && th.pc.Idle? && c < |table|
    && s' == Update(s, t, th.(op := op, cls := c, pc := ReadCpu))
  }

  /** A CPU beyond the slabs has none: the fast path gives up. */
  ghost predicate ReadCpuStep(s: State, t: nat, s': State)
    requires t < |s.threads|
  {
    var th := s.threads[t];
    && th.on.Some? && th.pc.ReadCpu?
    && s' == Update(s, t, if th.on.value >= |s.slabs| then th.(pc := Idle)
                    else th.(cpu := th.on.value, pc := LoadCount))
  }

  ghost predicate LoadCountStep(s: State, t: nat, s': State)
    requires t < |s.threads|
  {
    var th := s.threads[t];
    && th.on.Some? && th.pc.LoadCount? && th.cpu < |s.slabs| && th.cls < |s.slabs[th.cpu].counts|
    && s' == Update(s, t, th.(cur := s.slabs[th.cpu].counts[th.cls], pc := CheckCpu))
  }

  /** The operation reports that there is nothing to pop, or no room to push. */
  ghost predicate Refused(table: seq<SizeClass>, th: Thread)
    requires Divisible(table) && th.cls < |table|
  {
    if th.op.Pop? then th.cur == 0 else th.cur >= Capacity(table, th.cls)
  }

  ghost predicate CheckCpuStep(table: seq<SizeClass>, s: State, t: nat, s': State)
    requires t < |s.threads| && Divisible(table)
  {
    var th := s.threads[t];
    && th.on.Some? && th.pc.CheckCpu? && th.cls < |table|
    && s' == Update(s, t, th.(pc := if th.on.value != th.cpu then ReadCpu
                                    else if Refused(table, th) then Idle
                                    else Access))
  }

  /** The slot the section reads or writes. */
  ghost function Slot(table: seq<SizeClass>, th: Thread): int
    requires Divisible(table) && th.cls < |table|
  {
    Offset(table, th.cls) + th.cur - if th.op.Pop? then 1 else 0
  }

  ghost predicate AccessStep(table: seq<SizeClass>, s: State, t: nat, s': State)
    requires t < |s.threads| && Divisible(table)
  {
    var th := s.threads[t];
    && th.on.Some? && th.pc.Access? && th.cls < |table| && th.cpu < |s.slabs|
    && var slab, i := s.slabs[th.cpu], Slot(table, th);
       && 0 <= i < |slab.pointers|
       && s' == match th.op
                case Pop => Update(s, t, th.(top := slab.pointers[i], pc := Commit))
                case Push(p) =>
                  Update(s, t, th.(pc := Commit)).(slabs := s.slabs[th.cpu := slab.(pointers := slab.pointers[i := p])])
  }

  ghost predicate CommitStep(s: State, t: nat, s': State)
    requires t < |s.threads|
  {
    var th := s.threads[t];
    && th.on.Some? && th.pc.Commit? && th.cpu < |s.slabs| && th.cls < |s.slabs[th.cpu].counts|
    && (th.op.Pop? ==> th.cur > 0)
    && var slab := s.slabs[th.cpu];
       s' == Update(s, t, th.(pc := Disarm))
             .(slabs := s.slabs[th.cpu :=
                                slab.(counts := slab.counts[th.cls := if th.op.Pop? then th.cur - 1 else th.cur + 1])])
  }

  ghost predicate DisarmStep(s: State, t: nat, s': State)
    requires t < |s.threads|
  {
    s.threads[t].on.Some? && s.threads[t].pc.Disarm? && s' == Update(s, t, s.threads[t].(pc := Report))
  }

  ghost predicate ReportStep(s: State, t: nat, s': State)
    requires t < |s.threads|
  {
    var th := s.threads[t];
    && th.on.Some? && th.pc.Report?
    && var s1 := Update(s, t, th.(pc := Idle));
       s' == if th.op.Pop? then s1.(popped := s.popped + multiset{th.top})
          else s1.(pushed := s.pushed + multiset{th.op.ptr})
  }

  ghost predicate ThreadStep(table: seq<SizeClass>, s: State, t: nat, cpu: nat, op: Op, c: nat, s': State)
    requires Divisible(table)
  {
    t < |s.threads| && (
      || ScheduleStep(s, t, cpu, s') || PreemptStep(s, t, s') || BeginStep(table, s, t, op, c, s')
      || ReadCpuStep(s, t, s') || LoadCountStep(s, t, s') || CheckCpuStep(table, s, t, s')
      || AccessStep(table, s, t, s') || CommitStep(s, t, s') || DisarmStep(s, t, s') || ReportStep(s, t, s'))
  }

  ghost predicate Run(table: seq<SizeClass>, states: seq<State>)
    requires Divisible(table)
  {
    && states != [] && Init(table, states[0])
    && forall i | 0 <= i < |states| - 1 :: Next(table, states[i], states[i + 1])
  }

  ghost predicate Next(table: seq<SizeClass>, s: State, s': State)
    requires Divisible(table)
  {
    exists t, cpu, op, c :: ThreadStep(table, s, t, cpu, op, c, s')
  }
}
