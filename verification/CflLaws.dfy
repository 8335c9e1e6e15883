/** Laws of the central free list value: invariants, conservation of objects, completeness,
    release exactly at the last object, and batches in any order. */
module CflLaws {
  import opened Sequences
  import opened Arithmetic
  import opened Widths
  import opened PackedLists
  import opened CflSpec

  // ---- counting ----

  ghost function Below(n: nat): (s: set<nat>)
    ensures |s| == n && forall i: nat :: i in s <==> i < n
  {
    if n == 0 then {} else Below(n - 1) + {n - 1}
  }

  ghost function Elements(s: seq<nat>): (r: set<nat>)
    ensures forall x: nat :: x in r <==> x in s
  {
    set x | x in s
  }

  lemma {:induction false} ElementsCount(s: seq<nat>)
    requires Distinct(s)
    ensures |Elements(s)| == |s|
  {
    if s != [] {
      ElementsCount(s[1..]);
      assert Elements(s) == {s[0]} + Elements(s[1..]);
    }
  }

  lemma SubsetCount(a: set<nat>, b: set<nat>)
    requires a <= b
    ensures |a| <= |b| && (|a| == |b| ==> a == b)
  {
    assert |b - a| == |b| - |a|;
  }

  /** Distinct indices below n number at most n, and n of them are all there are. */
  lemma Pigeonhole(s: seq<nat>, n: nat)
    requires Distinct(s) && forall i | i in s :: i < n
    ensures |s| <= n
    ensures |s| == n ==> forall i: nat | i < n :: i in s
  {
    ElementsCount(s);
    SubsetCount(Elements(s), Below(n));
  }

  // ---- carving ----

  /** One chunk adds every index of the chunk exactly once and nothing else. */
  lemma PopulateOk(sp: SpanState, size: nat)
    requires SpanShape(sp) && size > 0 && sp.free == []
    ensures var sp' := Populate(sp, size);
            && sp'.carved <= sp'.total && Distinct(sp'.free) && |sp'.free| == sp'.carved - sp.carved
            && (forall i: nat :: i in sp'.free <==> sp.carved <= i < sp'.carved)
            && (forall i :: Outstanding(sp', i) <==> Outstanding(sp, i))
            && (sp'.free == [] <==> sp.carved == sp.total)
  {
    if sp.carved < sp.total {
      DownMembers(sp.carved, ChunkEnd(sp, size));
      assert Populate(sp, size).free == Down(sp.carved, ChunkEnd(sp, size));
    }
  }

  /** sp' is sp with one chunk carved, its last object on top: a single object or objects that fit one page,
      and unless they are the last of the span one object more would not fit. */
  ghost predicate ChunkCarved(sp: SpanState, sp': SpanState, size: nat) {
    var n := sp'.carved - sp.carved;
    && sp'.start == sp.start && sp'.total == sp.total && sp.carved < sp'.carved <= sp.total
    && (n == 1 || n * size <= PAGE_SIZE)
    && (sp'.carved == sp.total || PAGE_SIZE < (n + 1) * size)
    && |sp'.free| == n + |sp.free| && sp'.free[n..] == sp.free
    && forall j | 0 <= j < n :: sp'.free[j] == sp'.carved - 1 - j
  }

  /** One chunk, or nothing when all is carved. */
  ghost predicate ChunkOrDone(sp: SpanState, sp': SpanState, size: nat) {
    if sp.carved < sp.total then ChunkCarved(sp, sp', size) else sp' == sp
  }

  lemma PopulateChunk(sp: SpanState, size: nat)
    requires size > 0 && sp.carved <= sp.total
    ensures ChunkOrDone(sp, Populate(sp, size), size)
  {
    if sp.carved < sp.total {
      var n := ChunkEnd(sp, size) - sp.carved;
      var most := PAGE_SIZE / size;
      DivTimes(PAGE_SIZE, size);
      MulMonotone(n, most, size);
      MulMonotone(most + 1, n + 1, size);
      assert (most + 1) * size == most * size + size;
      assert |Down(sp.carved, ChunkEnd(sp, size))| == n;
    }
  }

  // ---- allocation ----

  lemma PositionOf(spans: seq<SpanState>, k: nat)
    requires k < |spans| && forall i, j | 0 <= i < j < |spans| :: spans[i].start != spans[j].start
    ensures Position(spans, spans[k].start) == k
  {
  }

  lemma ReadyOk(c: Cfl, got: Option<nat>)
    requires CflOk(c) && (got.Some? ==> Asks(c) && Position(c.spans, got.value) == |c.spans|)
    ensures var c2 := Ready(c, got);
            && CflOk(c2) && c2.size == c.size && c2.pages == c.pages
            && Outs(c2) == Outs(c)
            && (c2.current.Some? ==> c2.size > 0 && Position(c2.spans, c2.current.value) < |c2.spans|)
  {
    if Chosen(c).None? && got.Some? {
      var c2 := Ready(c, got);
      assert c2.spans[1..] == c.spans;
      forall o
        ensures o in Outs(c2) <==> o in Outs(c)
      {
        if k :| 0 <= k < |c.spans| && c.spans[k].start == o.start && Outstanding(c.spans[k], o.idx) {
          assert c2.spans[k + 1] == c.spans[k];
        }
      }
    }
  }

  /** Replacing span k by one with other free objects changes only what is out of span k. */
  lemma OutsReplace(c: Cfl, k: nat, sp: SpanState, current: Option<nat>)
    requires CflOk(c) && k < |c.spans| && sp.start == c.spans[k].start
    ensures forall o :: o in Outs(c.(spans := c.spans[k := sp], current := current)) <==>
              if o.start == sp.start then Outstanding(sp, o.idx) else o in Outs(c)
  {
    var c' := c.(spans := c.spans[k := sp], current := current);
    forall o
      ensures o in Outs(c') <==> if o.start == sp.start then Outstanding(sp, o.idx) else o in Outs(c)
    {
      assert c'.spans[k] == sp;
      if j :| 0 <= j < |c.spans| && c.spans[j].start == o.start && Outstanding(c.spans[j], o.idx) {
        assert j != k ==> c'.spans[j] == c.spans[j];
      }
    }
  }

  lemma OutsOf(c: Cfl, k: nat, i: nat)
    requires CflOk(c) && k < |c.spans|
    ensures Object(c.spans[k].start, i) in Outs(c) <==> Outstanding(c.spans[k], i)
  {
    var o := Object(c.spans[k].start, i);
    assert Outstanding(c.spans[k], i) ==> Outstanding(c.spans[k], o.idx);
    if j :| 0 <= j < |c.spans| && c.spans[j].start == o.start && Outstanding(c.spans[j], o.idx) {
      assert j == k;
    }
  }

  lemma PositionReplace(spans: seq<SpanState>, k: nat, sp: SpanState, start: nat)
    requires k < |spans| && sp.start == spans[k].start
    ensures Position(spans[k := sp], start) == Position(spans, start)
  {
    var spans' := spans[k := sp];
    assert forall j | 0 <= j < |spans| :: spans'[j].start == spans[j].start;
  }

  lemma ReplaceOk(c: Cfl, k: nat, sp: SpanState)
    requires CflOk(c) && k < |c.spans| && SpanOk(sp)
    requires sp.start == c.spans[k].start && sp.total == c.spans[k].total
    ensures CflOk(c.(spans := c.spans[k := sp]))
  {
    if c.current.Some? {
      PositionReplace(c.spans, k, sp, c.current.value);
    }
  }

  /** The span an object is taken from, before the object leaves its stack. */
  ghost function Filled(sp: SpanState, size: nat): SpanState
    requires size > 0
  {
    if sp.free == [] then Populate(sp, size) else sp
  }

  lemma TakeTop(sp: SpanState, size: nat)
    requires SpanOk(sp) && size > 0 && HasAvailable(sp)
    ensures var sp1 := Filled(sp, size);
            && sp1.free != []
            && SpanOk(sp1.(free := sp1.free[1..]))
            && !Outstanding(sp, sp1.free[0])
            && forall i: nat :: Outstanding(sp1.(free := sp1.free[1..]), i) <==> Outstanding(sp, i) || i == sp1.free[0]
  {
    if sp.free == [] { PopulateOk(sp, size); }
    var sp1 := Filled(sp, size);
    Pigeonhole(sp1.free, sp1.carved);
    assert sp1.free[0] in sp1.free;
    assert sp1.free == [sp1.free[0]] + sp1.free[1..];
    assert forall i | i in sp1.free[1..] :: i in sp1.free;
  }

  /** Taking an object hands out exactly one that was not out; taking none hands out none, and
      happens only to a span with nothing free and nothing uncarved. */
  lemma TakeFromOk(c: Cfl, k: nat)
    requires CflOk(c) && k < |c.spans|
    ensures var (c', o) := TakeFrom(c, k);
            && CflOk(c') && c'.current == c.current && |c'.spans| == |c.spans|
            && (o.None? <==> !HasAvailable(c.spans[k]))
            && (o.None? ==> Outs(c') == Outs(c))
            && (o.Some? ==> o.value.start == c.spans[k].start && o.value !in Outs(c)
                            && Outs(c') == Outs(c) + iset{o.value})
  {
    var sp := c.spans[k];
    if HasAvailable(sp) {
      TakeTop(sp, c.size);
      var sp1 := Filled(sp, c.size);
      var sp' := sp1.(free := sp1.free[1..]);
      hide SpanOk, HasAvailable;
      ReplaceOk(c, k, sp');
      OutsReplace(c, k, sp', c.current);
      forall i: nat { OutsOf(c, k, i); }
    } else {
      assert c.spans[k := sp] == c.spans;
    }
  }

  lemma AllocateOk(c: Cfl, got: Option<nat>)
    requires CflOk(c) && (got.Some? ==> Asks(c) && Position(c.spans, got.value) == |c.spans|)
    ensures var (c', o) := AllocateOp(c, got);
            && CflOk(c')
            && (o.None? ==> Outs(c') == Outs(c))
            && (o.Some? ==> o.value !in Outs(c) && Outs(c') == Outs(c) + iset{o.value})
  {
    ReadyOk(c, got);
    var c2 := Ready(c, got);
    if c2.current.Some? {
      TakeFromOk(c2, Position(c2.spans, c2.current.value));
    }
  }

  /** Allocating fails exactly when no listed span has a free or uncarved object and the page heap
      gave no span, or gave one too short for a single object. */
  lemma AllocateComplete(c: Cfl, got: Option<nat>)
    requires CflOk(c) && (got.Some? ==> Asks(c) && Position(c.spans, got.value) == |c.spans|)
    ensures AllocateOp(c, got).1.None? <==>
            && (forall k | 0 <= k < |c.spans| :: !HasAvailable(c.spans[k]))
            && (got.None? || c.pages * PAGE_SIZE < c.size)
  {
    ReadyOk(c, got);
    var c2 := Ready(c, got);
    if c2.current.Some? {
      var k := Position(c2.spans, c2.current.value);
      TakeFromOk(c2, k);
      if Chosen(c).None? {
        ZeroObjects(c.size, c.pages);
      }
    }
  }

  // ---- which object allocate hands out ----

  /** Span k has a free object, or one that was never carved. */
  ghost predicate Gives(c: Cfl, k: nat) {
    k < |c.spans| && (c.spans[k].free != [] || c.spans[k].carved < c.spans[k].total)
  }

  /** The current span while it gives, else the first that does. */
  ghost predicate TurnsTo(c: Cfl, k: nat) {
    && Gives(c, k)
    && (c.current != Some(c.spans[k].start) ==>
          forall j: nat | Gives(c, j) :: k <= j && c.current != Some(c.spans[j].start))
  }

  /** One object left the span: the top of its stack or, when that was empty, the last of a newly carved chunk. */
  ghost predicate Gave(sp: SpanState, sp': SpanState, size: nat, idx: nat) {
    if sp.free != [] then sp' == sp.(free := sp.free[1..]) && idx == sp.free[0]
    else ChunkCarved(sp, sp'.(free := [idx] + sp'.free), size)
  }

  lemma TakeFromGives(c: Cfl, k: nat)
    requires CflOk(c) && Gives(c, k)
    ensures c.size > 0
    ensures var (c', o) := TakeFrom(c, k);
            && o.Some? && o.value.start == c.spans[k].start && |c'.spans| == |c.spans|
            && c' == c.(spans := c'.spans) && c'.spans[k].start == o.value.start
            && c'.spans[k].total == c.spans[k].total
            && (forall j | 0 <= j < |c.spans| && j != k :: c'.spans[j] == c.spans[j])
            && Gave(c.spans[k], c'.spans[k], c.size, o.value.idx)
  {
    var sp := c.spans[k];
    if sp.free == [] {
      PopulateChunk(sp, c.size);
      var sp' := Populate(sp, c.size);
      assert sp'.free == [sp'.free[0]] + sp'.free[1..];
    }
  }

  lemma ChosenTurns(c: Cfl, k: nat)
    requires CflOk(c) && TurnsTo(c, k)
    ensures Chosen(c) == Some(c.spans[k].start)
  {
    hide SpanOk, SpanShape, ObjectsPerSpan;
    PositionOf(c.spans, k);
    if c.current.Some? {
      var p := Position(c.spans, c.current.value);
      assert Gives(c, p) <==> HasAvailable(c.spans[p]);
    }
    var f := FirstAvailable(c.spans);
    assert HasAvailable(c.spans[k]);
    assert f < |c.spans| && Gives(c, f);
    PositionOf(c.spans, f);
  }

  /** While some listed span gives, the object comes from the span allocate turns to, which is current then, and
      no other span changes. */
  lemma AllocateListedExact(c: Cfl, k: nat)
    requires CflOk(c) && TurnsTo(c, k)
    ensures !Asks(c) && c.size > 0
    ensures var (c', o) := AllocateOp(c, None);
            && o.Some? && o.value.start == c.spans[k].start
            && c' == Cfl(c.size, c.pages, c'.spans, Some(c.spans[k].start)) && |c'.spans| == |c.spans|
            && (forall j | 0 <= j < |c.spans| && j != k :: c'.spans[j] == c.spans[j])
            && Gave(c.spans[k], c'.spans[k], c.size, o.value.idx)
  {
    hide Gave, TakeFrom, Chosen;
    ReadyOk(c, None);
    ChosenTurns(c, k);
    PositionOf(c.spans, k);
    TakeFromGives(Ready(c, None), k);
  }

  /** A span fetched from the page heap joins the front of the list, as many objects in it as its pages hold,
      and gives the last of its first chunk. */
  lemma AllocateFetchedExact(c: Cfl, start: nat)
    requires CflOk(c) && Asks(c) && Position(c.spans, start) == |c.spans|
    ensures var (c', o) := AllocateOp(c, Some(start));
            && c' == Cfl(c.size, c.pages, c'.spans, Some(start))
            && |c'.spans| == |c.spans| + 1 && c'.spans[1..] == c.spans
            && c'.spans[0].start == start
            && c'.spans[0].total * c.size <= c.pages * PAGE_SIZE < (c'.spans[0].total + 1) * c.size
            && if o.None? then c'.spans[0] == SpanState(start, 0, 0, [])
               else o.value.start == start
                    && Gave(SpanState(start, c'.spans[0].total, 0, []), c'.spans[0], c.size, o.value.idx)
  {
    hide Gave, TakeFrom, ObjectsPerSpan, CflOk, Ready, AllocateOp;
    FetchedReady(c, start);
    var c2 := Ready(c, Some(start));
    ObjectsFill(c.size, c.pages);
    if c2.spans[0].total > 0 {
      TakeFromGives(c2, 0);
      var c' := TakeFrom(c2, 0).0;
      assert c'.spans[1..] == c2.spans[1..];
    } else {
      NothingTaken(c2, 0);
    }
  }

  lemma FetchedReady(c: Cfl, start: nat)
    requires CflOk(c) && Asks(c) && Position(c.spans, start) == |c.spans|
    ensures var c2 := Ready(c, Some(start));
            && c2 == Cfl(c.size, c.pages, c2.spans, Some(start)) && c2.spans != [] && c2.spans[1..] == c.spans
            && c2.spans[0] == SpanState(start, ObjectsPerSpan(c.size, c.pages), 0, [])
            && CflOk(c2) && AllocateOp(c, Some(start)) == TakeFrom(c2, 0)
  {
    hide ObjectsPerSpan, TakeFrom;
    ReadyOk(c, Some(start));
  }

  lemma NothingTaken(c: Cfl, k: nat)
    requires CflOk(c) && k < |c.spans| && !HasAvailable(c.spans[k])
    ensures TakeFrom(c, k) == (c, None)
  {
    assert c.spans[k := c.spans[k]] == c.spans;
  }

  /** When nothing is listed to give and nothing is fetched, only the current span changes: there is none. */
  lemma AllocateNothing(c: Cfl)
    requires CflOk(c) && forall k: nat :: !Gives(c, k)
    ensures AllocateOp(c, None) == (c.(current := None), None)
  {
    ReadyOk(c, None);
    forall k | 0 <= k < |c.spans|
      ensures !HasAvailable(c.spans[k])
    {
      assert !Gives(c, k);
    }
  }

  /** As many objects as the pages hold. */
  lemma ObjectsFill(size: nat, pages: nat)
    requires size > 0
    ensures var n := ObjectsPerSpan(size, pages); n * size <= pages * PAGE_SIZE < (n + 1) * size
  {
    DivTimes(pages * PAGE_SIZE, size);
  }

  lemma ZeroObjects(size: nat, pages: nat)
    requires size > 0
    ensures ObjectsPerSpan(size, pages) == 0 <==> pages * PAGE_SIZE < size
  {
  }

  // ---- a span leaves the list ----

  lemma UnlistSpans(c: Cfl, k: nat)
    requires k < |c.spans|
    ensures var c' := Unlist(c, k);
            && c'.size == c.size && c'.pages == c.pages && |c'.spans| == |c.spans| - 1
            && forall j | 0 <= j < |c'.spans| :: c'.spans[j] == c.spans[if j < k then j else j + 1]
  {
  }

  lemma UnlistPosition(c: Cfl, k: nat, start: nat)
    requires CflShape(c) && k < |c.spans|
    ensures var c', p := Unlist(c, k), Position(c.spans, start);
            Position(c'.spans, start) == if p == k then |c'.spans| else if p < k then p else p - 1
  {
    hide SpanShape, ObjectsPerSpan;
    UnlistSpans(c, k);
    var c', p := Unlist(c, k), Position(c.spans, start);
    if p < |c.spans| && p != k {
      assert c'.spans[if p < k then p else p - 1] == c.spans[p];
    }
  }

  lemma UnlistShape(c: Cfl, k: nat)
    requires CflShape(c) && k < |c.spans|
    ensures var c' := Unlist(c, k);
            && CflShape(c') && Position(c'.spans, c.spans[k].start) == |c'.spans|
            && forall j | 0 <= j < |c'.spans| :: c'.spans[j] == c.spans[if j < k then j else j + 1]
  {
    hide SpanShape, ObjectsPerSpan;
    UnlistSpans(c, k);
    PositionOf(c.spans, k);
    UnlistPosition(c, k, c.spans[k].start);
    if c.current.Some? {
      UnlistPosition(c, k, c.current.value);
    }
  }

  lemma CurrentListed(c: Cfl)
    requires CflShape(c) && c.current.Some?
    ensures var p := Position(c.spans, c.current.value); p < |c.spans| && c.spans[p].start == c.current.value
  {
  }

  // ---- deallocation ----

  /** A span's last outstanding object is the one whose return completes its free stack; by then
      the span is fully carved. */
  lemma ReleaseExact(c: Cfl, k: nat, idx: nat)
    requires CflOk(c) && k < |c.spans| && Outstanding(c.spans[k], idx)
    ensures Releases(c, k) <==>
            c.spans[k].carved == c.spans[k].total && forall i: nat :: Outstanding(c.spans[k], i) <==> i == idx
  {
    var sp := c.spans[k];
    var all := [idx] + sp.free;
    Pigeonhole(all, sp.carved);
    if Releases(c, k) {
      forall i: nat | i < sp.carved
        ensures i in sp.free <==> i != idx
      {
        assert i in all;
      }
    } else if forall i: nat :: Outstanding(sp, i) <==> i == idx {
      forall i: nat | i < sp.carved
        ensures i in all
      {
        assert i in sp.free || Outstanding(sp, i);
      }
      ElementsCount(all);
      SubsetCount(Below(sp.carved), Elements(all));
    }
  }

  /** Freeing takes exactly one object back, keeps the invariant, and drops only a span none of
      whose objects is out. */
  lemma FreeOk(c: Cfl, k: nat, idx: nat)
    requires CflOk(c) && k < |c.spans| && Outstanding(c.spans[k], idx)
    ensures var c' := FreeOp(c, k, idx);
            && CflOk(c') && Outs(c') == Outs(c) - iset{Object(c.spans[k].start, idx)}
  {
    var sp := c.spans[k];
    var sp' := sp.(free := [idx] + sp.free);
    Pigeonhole(sp'.free, sp.carved);
    if Releases(c, k) {
      ReleaseExact(c, k, idx);
      DropSpan(c, k, idx);
    } else {
      ReplaceOk(c, k, sp');
      OutsReplace(c, k, sp', c.current);
      forall i: nat { OutsOf(c, k, i); }
    }
  }

  lemma DropSpan(c: Cfl, k: nat, idx: nat)
    requires CflOk(c) && k < |c.spans| && Releases(c, k)
    requires forall i: nat :: Outstanding(c.spans[k], i) <==> i == idx
    ensures var c' := FreeOp(c, k, idx);
            && CflOk(c') && Outs(c') == Outs(c) - iset{Object(c.spans[k].start, idx)}
  {
    hide SpanShape, SpanOk, ObjectsPerSpan, Outstanding;
    UnlistShape(c, k);
    hide CflShape, Unlist;
    var c', start := FreeOp(c, k, idx), c.spans[k].start;
    forall o
      ensures o in Outs(c') <==> o in Outs(c) && o != Object(start, idx)
    {
      if j :| 0 <= j < |c.spans| && c.spans[j].start == o.start && Outstanding(c.spans[j], o.idx) && j != k {
        assert c'.spans[if j < k then j else j - 1] == c.spans[j];
      }
      if j :| 0 <= j < |c'.spans| && c'.spans[j].start == o.start && Outstanding(c'.spans[j], o.idx) {
        assert c'.spans[j] == c.spans[if j < k then j else j + 1];
      }
    }
  }

  /** Where a freed object goes: on top of its span's stack, all else unchanged, unless it was the last one out of
      a fully carved span. That span leaves the list, which stays in order, and is current no more. */
  lemma FreeExact(c: Cfl, k: nat, idx: nat)
    requires CflOk(c) && k < |c.spans| && Outstanding(c.spans[k], idx)
    ensures var c', sp := FreeOp(c, k, idx), c.spans[k];
            if sp.carved == sp.total && (forall i: nat | i < sp.carved && i != idx :: i in sp.free) then
              && c'.spans == c.spans[..k] + c.spans[k + 1..]
              && c' == Cfl(c.size, c.pages, c'.spans, if c.current == Some(sp.start) then None else c.current)
            else
              && c' == Cfl(c.size, c.pages, c'.spans, c.current) && |c'.spans| == |c.spans|
              && (forall j | 0 <= j < |c.spans| && j != k :: c'.spans[j] == c.spans[j])
              && c'.spans[k] == SpanState(sp.start, sp.total, sp.carved, [idx] + sp.free)
  {
    hide SpanOk, CflShape, ObjectsPerSpan;
    ReleaseExact(c, k, idx);
    var sp := c.spans[k];
    if forall i: nat | i < sp.carved && i != idx :: i in sp.free {
      forall i: nat
        ensures Outstanding(sp, i) <==> i == idx
      {
      }
    } else {
      var i: nat :| i < sp.carved && i != idx && i !in sp.free;
      assert Outstanding(sp, i);
    }
  }

  // ---- freeing is undone by allocating ----

  /** An object freed to the current span is the next one allocated, and the list is as before. */
  lemma FreeThenAllocate(c: Cfl, k: nat, idx: nat)
    requires CflOk(c) && k < |c.spans| && Outstanding(c.spans[k], idx) && !Releases(c, k)
    requires c.current == Some(c.spans[k].start)
    ensures CflOk(FreeOp(c, k, idx))
    ensures AllocateOp(FreeOp(c, k, idx), None) == (c, Some(Object(c.spans[k].start, idx)))
  {
    var sp := c.spans[k];
    var c1 := FreeOp(c, k, idx);
    FreeOk(c, k, idx);
    PositionOf(c1.spans, k);
    assert c1.spans[k].free[1..] == sp.free;
    assert c1.spans[k := sp] == c.spans;
  }

  // ---- batches ----

  /** Frees a batch in order, as deallocate_batch does. */
  ghost function FreeAll(c: Cfl, batch: seq<Object>): Cfl
    decreases |batch|
  {
    if batch == [] then c
    else
      var k := Position(c.spans, batch[0].start);
      FreeAll(if k < |c.spans| then FreeOp(c, k, batch[0].idx) else c, batch[1..])
  }

  /** Every pointer of a batch is outstanding when its turn comes. */
  ghost predicate AllOut(c: Cfl, batch: seq<Object>)
    decreases |batch|
  {
    batch != [] ==>
      var k := Position(c.spans, batch[0].start);
      batch[0] in Outs(c) && k < |c.spans| && AllOut(FreeOp(c, k, batch[0].idx), batch[1..])
  }

  lemma OutPosition(c: Cfl, o: Object)
    requires CflOk(c) && o in Outs(c)
    ensures var k := Position(c.spans, o.start); k < |c.spans| && Outstanding(c.spans[k], o.idx)
  {
    var k :| 0 <= k < |c.spans| && c.spans[k].start == o.start && Outstanding(c.spans[k], o.idx);
    PositionOf(c.spans, k);
  }

  ghost function Members(batch: seq<Object>): iset<Object> {
    iset o | o in batch
  }

  /** A batch of distinct outstanding objects is freed safely even when it releases spans midway:
      each is still outstanding when its turn comes, and together they are taken back. */
  lemma {:induction false} BatchSafe(c: Cfl, batch: seq<Object>)
    requires CflOk(c) && Distinct(batch) && Members(batch) <= Outs(c)
    ensures AllOut(c, batch) && CflOk(FreeAll(c, batch))
    ensures Outs(FreeAll(c, batch)) == Outs(c) - Members(batch)
    decreases |batch|
  {
    if batch != [] {
      assert batch[0] in Members(batch);
      OutPosition(c, batch[0]);
      var k := Position(c.spans, batch[0].start);
      FreeOk(c, k, batch[0].idx);
      forall o | o in batch[1..]
        ensures o in batch && o != batch[0]
      {
      }
      BatchSafe(FreeOp(c, k, batch[0].idx), batch[1..]);
      assert Members(batch) == iset{batch[0]} + Members(batch[1..]);
    }
  }

  ghost predicate Listed(c: Cfl, start: nat) {
    Position(c.spans, start) < |c.spans|
  }

  ghost function Carved(c: Cfl, start: nat): nat
    requires Listed(c, start)
  {
    c.spans[Position(c.spans, start)].carved
  }

  /** A span stays listed as long as it is not fully carved, or holds an object that is out. */
  ghost predicate Stays(c: Cfl, start: nat, outs: iset<Object>)
    requires Listed(c, start)
  {
    var sp := c.spans[Position(c.spans, start)];
    sp.carved < sp.total || sp.total == 0 || exists i: nat :: Object(start, i) in outs
  }

  lemma ListedStays(c: Cfl, start: nat)
    requires CflOk(c) && Listed(c, start)
    ensures Stays(c, start, Outs(c))
  {
    var k := Position(c.spans, start);
    var sp := c.spans[k];
    if sp.carved == sp.total > 0 && forall i: nat | i < sp.carved :: i in sp.free {
      ElementsCount(sp.free);
      SubsetCount(Below(sp.carved), Elements(sp.free));
    }
    if i: nat :| i < sp.carved && i !in sp.free {
      OutsOf(c, k, i);
    }
  }

  /** Freeing one object changes no carving and unlists exactly the span it completes. */
  lemma FreeListed(c: Cfl, k: nat, idx: nat, start: nat)
    requires CflOk(c) && k < |c.spans| && Outstanding(c.spans[k], idx)
    ensures var c' := FreeOp(c, k, idx);
            && (Listed(c', start) <==> Listed(c, start) && !(start == c.spans[k].start && Releases(c, k)))
            && (Listed(c', start) ==>
                  var sp, sp' := c.spans[Position(c.spans, start)], c'.spans[Position(c'.spans, start)];
                  sp'.carved == sp.carved && sp'.total == sp.total)
  {
    hide SpanOk, SpanShape, ObjectsPerSpan, Outstanding;
    var sp := Pushed(c.spans[k], idx);
    PositionOf(c.spans, k);
    if Releases(c, k) {
      UnlistSpans(c, k);
      UnlistPosition(c, k, start);
    } else {
      PositionReplace(c.spans, k, sp, start);
    }
  }

  /** Allocating lists exactly the span the page heap gave, besides those listed before. */
  lemma AllocateListed(c: Cfl, got: Option<nat>, a: nat)
    requires CflOk(c) && (got.Some? ==> Asks(c) && Position(c.spans, got.value) == |c.spans|)
    ensures var c' := AllocateOp(c, got).0;
            && c'.size == c.size && c'.pages == c.pages
            && (Listed(c', a) <==> Listed(c, a) || got == Some(a))
            && (Listed(Ready(c, got), a) <==> Listed(c, a) || got == Some(a))
  {
    ReadyOk(c, got);
    var c2 := Ready(c, got);
    assert c2.spans != c.spans ==> c2.spans[1..] == c.spans;
    assert Listed(c2, a) <==> Listed(c, a) || got == Some(a);
    if c2.current.Some? {
      var k := Position(c2.spans, c2.current.value);
      var c' := TakeFrom(c2, k).0;
      PositionReplace(c2.spans, k, c'.spans[k], a);
    }
  }

  /** What a batch leaves listed, and how far it is carved, depends only on which objects it frees. */
  lemma {:induction false} BatchListed(c: Cfl, batch: seq<Object>, start: nat)
    requires CflOk(c) && Distinct(batch) && Members(batch) <= Outs(c)
    ensures var c', outs := FreeAll(c, batch), Outs(c) - Members(batch);
            && (Listed(c', start) <==> Listed(c, start) && Stays(c, start, outs))
            && (Listed(c', start) ==> Carved(c', start) == Carved(c, start))
    decreases |batch|
  {
    if batch == [] {
      assert Outs(c) - Members(batch) == Outs(c);
      if Listed(c, start) { ListedStays(c, start); }
    } else {
      var o := batch[0];
      assert o in Members(batch);
      OutPosition(c, o);
      var k := Position(c.spans, o.start);
      var c1 := FreeOp(c, k, o.idx);
      FreeOk(c, k, o.idx);
      FreeListed(c, k, o.idx, start);
      ReleaseExact(c, k, o.idx);
      forall x | x in batch[1..]
        ensures x in batch && x != o
      {
      }
      BatchListed(c1, batch[1..], start);
      assert Outs(c1) - Members(batch[1..]) == Outs(c) - Members(batch);
      forall i: nat { OutsOf(c, k, i); }
    }
  }

  /** Object `o` is free in its listed span. */
  ghost predicate Free(c: Cfl, o: Object) {
    Listed(c, o.start) && o.idx in c.spans[Position(c.spans, o.start)].free
  }

  lemma FreeByOuts(c: Cfl, o: Object)
    requires CflOk(c)
    ensures Free(c, o) <==> Listed(c, o.start) && o.idx < Carved(c, o.start) && o !in Outs(c)
  {
    if Listed(c, o.start) {
      OutsOf(c, Position(c.spans, o.start), o.idx);
    }
  }

  /** Two batches of the same objects leave the same spans listed, carved as far, with the same
      objects free: the order of a batch does not matter. */
  lemma BatchOrder(c: Cfl, batch: seq<Object>, batch': seq<Object>)
    requires CflOk(c) && Distinct(batch) && Distinct(batch')
    requires Members(batch) == Members(batch') <= Outs(c)
    ensures var a, b := FreeAll(c, batch), FreeAll(c, batch');
            && Outs(a) == Outs(b)
            && (forall start: nat :: Listed(a, start) <==> Listed(b, start))
            && (forall o :: Free(a, o) <==> Free(b, o))
  {
    var a, b := FreeAll(c, batch), FreeAll(c, batch');
    BatchSafe(c, batch);
    BatchSafe(c, batch');
    forall start: nat
      ensures Listed(a, start) <==> Listed(b, start)
      ensures Listed(a, start) ==> Carved(a, start) == Carved(b, start)
    {
      BatchListed(c, batch, start);
      BatchListed(c, batch', start);
    }
    forall o
      ensures Free(a, o) <==> Free(b, o)
    {
      FreeByOuts(a, o);
      FreeByOuts(b, o);
    }
  }

  lemma EmptyBatch(c: Cfl)
    ensures Distinct<Object>([]) && Members([]) !! Outs(c) && Outs(c) == Outs(c) + Members([])
  {
  }

  lemma BatchGrows(batch: seq<Object>, o: Object)
    requires Distinct(batch)
    ensures Members(batch + [o]) == Members(batch) + iset{o}
    ensures o !in Members(batch) ==> Distinct(batch + [o])
  {
    assert o in batch + [o];
    assert forall x | x in batch :: x in batch + [o];
  }

  /** When allocating fails, nothing is available afterwards either. */
  lemma NothingLeft(c: Cfl, got: Option<nat>)
    requires CflOk(c) && (got.Some? ==> Asks(c) && Position(c.spans, got.value) == |c.spans|)
    requires AllocateOp(c, got).1.None?
    ensures var c' := AllocateOp(c, got).0; forall k | 0 <= k < |c'.spans| :: !HasAvailable(c'.spans[k])
  {
    AllocateComplete(c, got);
    ReadyOk(c, got);
    var c2 := Ready(c, got);
    if c2.current.Some? {
      var k := Position(c2.spans, c2.current.value);
      TakeFromOk(c2, k);
      ZeroObjects(c.size, c.pages);
    }
  }
}
