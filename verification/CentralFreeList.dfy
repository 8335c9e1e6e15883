/** The central free list of one size class (central_free_list.hpp): spans carved into objects
    whose free lists live inside the free objects themselves. */
module CentralFreeLists {
  import opened Sequences
  import opened Widths
  import opened PageHeapSpec
  import opened PageHeapLaws
  import opened PageHeaps
  import opened PackedLists
  import opened CflSpec
  import opened CflLaws
  import opened CflMemory
  import opened Separation

  /** The machine's memory, shared by all lists and by the user. */
  class Ram {
    var words: Memory

    constructor ()
      ensures words == map[]
    {
      words := map[];
    }
  }

  // ---- what the fields of the spans mean ----

  ghost predicate SpanMatches(o: Span, sp: SpanState)
    reads o`start, o`totalObjects, o`numFreeObjects, o`nextUninitialized
  {
    && o.start == sp.start && o.totalObjects == sp.total && o.numFreeObjects == |sp.free|
    && o.nextUninitialized == sp.carved
  }

  ghost predicate Matches(c: Cfl, objs: seq<Span>)
    reads objs`start, objs`totalObjects, objs`numFreeObjects, objs`nextUninitialized
  {
    |objs| == |c.spans| && forall k | 0 <= k < |objs| :: SpanMatches(objs[k], c.spans[k])
  }

  /** The span objects are the page heap's, in use for this size class. */
  ghost predicate Placed(c: Cfl, objs: seq<Span>, h: Heap, live: map<nat, Span>) {
    && SpansInUse(c, h) && |objs| == |c.spans|
    && forall k | 0 <= k < |objs| :: c.spans[k].start in live && live[c.spans[k].start] == objs[k]
  }

  /** What is in use in heap h is in use in h' too, as it was and with the same span object. */
  ghost predicate Untouched(h: Heap, live: map<nat, Span>, h': Heap, live': map<nat, Span>) {
    forall x | InUse(h, x) :: x in h' && h'[x] == h[x] && x in live && x in live' && live'[x] == live[x]
  }

  lemma UntouchedJoin(h: Heap, live: map<nat, Span>, h1: Heap, live1: map<nat, Span>, h2: Heap, live2: map<nat, Span>)
    requires Untouched(h, live, h1, live1) && Untouched(h1, live1, h2, live2)
    ensures Untouched(h, live, h2, live2)
  {
  }

  /** Spans in use for other sizes stay in use as they are. */
  ghost predicate SizesStay(h: Heap, h': Heap, size: nat) {
    forall x | InUse(h, x) && h[x].size != size :: x in h' && h'[x] == h[x]
  }

  lemma SizesStayJoin(h: Heap, h1: Heap, h2: Heap, size: nat)
    requires SizesStay(h, h1, size) && SizesStay(h1, h2, size)
    ensures SizesStay(h, h2, size)
  {
  }

  lemma UntouchedSame(h: Heap, live: map<nat, Span>)
    requires h.Keys == live.Keys
    ensures Untouched(h, live, h, live)
  {
  }

  /** Each span's packed list in memory holds its free stack. */
  ghost predicate Held(c: Cfl, objs: seq<Span>, m: Memory, size: uint32)
    reads objs`freelistHead
  {
    && |objs| == |c.spans|
    && forall k | 0 <= k < |objs| :: IsList(m, Base(c.spans[k]), size, objs[k].freelistHead, c.spans[k].free)
  }

  ghost function CurrentOf(c: Cfl, objs: seq<Span>): Span? {
    if c.current.Some? then At(objs, Position(c.spans, c.current.value)) else null
  }

  lemma MatchesReplace(c: Cfl, objs: seq<Span>, k: nat, sp: SpanState)
    requires |objs| == |c.spans| && k < |objs| && SpanMatches(objs[k], sp)
    requires forall j | 0 <= j < |objs| && j != k :: SpanMatches(objs[j], c.spans[j])
    ensures Matches(c.(spans := c.spans[k := sp]), objs)
  {
  }

  lemma PlacedReplace(c: Cfl, objs: seq<Span>, h: Heap, live: map<nat, Span>, k: nat, sp: SpanState)
    requires Placed(c, objs, h, live) && k < |objs| && sp.start == c.spans[k].start
    ensures Placed(c.(spans := c.spans[k := sp]), objs, h, live)
  {
  }

  lemma ShapeReplace(c: Cfl, objs: seq<Span>, k: nat, sp: SpanState)
    requires CflShape(c) && k < |c.spans| == |objs| && SpanShape(sp)
    requires sp.start == c.spans[k].start && sp.total == c.spans[k].total
    ensures CflShape(c.(spans := c.spans[k := sp]))
    ensures CurrentOf(c.(spans := c.spans[k := sp]), objs) == CurrentOf(c, objs)
  {
    if c.current.Some? {
      PositionReplace(c.spans, k, sp, c.current.value);
    }
  }

  lemma ShapeSized(c: Cfl)
    requires CflShape(c) && c.spans != []
    ensures c.size > 0 && c.pages > 0
  {
  }

  lemma HeldReplace(c: Cfl, objs: seq<Span>, h: Heap, live: map<nat, Span>, m: Memory, m': Memory, size: uint32,
                    k: nat, w: SpanState, sp: SpanState)
    requires CflShape(c) && Disjoint(h) && Placed(c, objs, h, live) && c.size == size >= NODE_SIZE
    requires k < |objs| && sp.start == c.spans[k].start
    requires WritesWithin(m, m', w, size) && w.start == c.spans[k].start && w.total == c.spans[k].total
    requires forall j | 0 <= j < |objs| && j != k ::
               IsList(m, Base(c.spans[j]), size, objs[j].freelistHead, c.spans[j].free)
    requires IsList(m', Base(sp), size, objs[k].freelistHead, sp.free)
    ensures Held(c.(spans := c.spans[k := sp]), objs, m', size)
  {
    forall j | 0 <= j < |objs| && j != k
      ensures IsList(m', Base(c.spans[j]), size, objs[j].freelistHead, c.spans[j].free)
    {
      OtherListKept(m, m', h, c, k, w, j, size, objs[j].freelistHead);
    }
  }

  /** Only CurrentOf depends on which span is current. */
  lemma CurrentFree(c: Cfl, objs: seq<Span>, h: Heap, live: map<nat, Span>, m: Memory, size: uint32, cur: Option<nat>)
    requires CflShape(c) && (cur.Some? ==> Position(c.spans, cur.value) < |c.spans|)
    requires Matches(c, objs) && Placed(c, objs, h, live) && Held(c, objs, m, size)
    ensures var c' := c.(current := cur);
            CflShape(c') && Matches(c', objs) && Placed(c', objs, h, live) && Held(c', objs, m, size)
  {
  }

  lemma UnlistCurrent(c: Cfl, objs: seq<Span>, k: nat)
    requires CflShape(c) && k < |objs| == |c.spans| && Distinct(objs)
    ensures CurrentOf(Unlist(c, k), Drop(objs, k))
            == if CurrentOf(c, objs) == objs[k] then null else CurrentOf(c, objs)
  {
    hide SpanShape, ObjectsPerSpan, Position;
    if c.current.Some? {
      PositionOf(c.spans, k);
      UnlistPosition(c, k, c.current.value);
      CurrentListed(c);
    }
  }

  /** A list without its span k. */
  lemma UnlistExact(c: Cfl, objs: seq<Span>, h: Heap, live: map<nat, Span>, m: Memory, size: uint32, k: nat)
    requires CflShape(c) && k < |objs| == |c.spans| && Placed(c, objs, h, live)
    requires forall j | 0 <= j < |objs| && j != k :: SpanMatches(objs[j], c.spans[j])
    requires forall j | 0 <= j < |objs| && j != k ::
               IsList(m, Base(c.spans[j]), size, objs[j].freelistHead, c.spans[j].free)
    ensures var c', objs' := Unlist(c, k), Drop(objs, k);
            && Matches(c', objs') && Placed(c', objs', h, live) && Held(c', objs', m, size)
            && FreeCount(c'.spans) + |c.spans[k].free| == FreeCount(c.spans)
  {
    hide CflShape, SpanMatches, IsList, FreeCount, Position;
    UnlistShape(c, k);
    FreeCountDrop(c.spans, k);
    var objs' := Drop(objs, k);
    assert forall j | 0 <= j < |objs'| :: objs'[j] == objs[if j < k then j else j + 1];
  }

  /** A span that joins the front of the list, with nothing carved yet. */
  lemma FetchExact(c: Cfl, objs: seq<Span>, h: Heap, live: map<nat, Span>, m: Memory, size: uint32, span: Span)
    requires CflOk(c) && c.size == size > 0 && c.pages > 0 && Position(c.spans, span.start) == |c.spans|
    requires Matches(c, objs) && Placed(c, objs, h, live) && Held(c, objs, m, size)
    requires SpanMatches(span, SpanState(span.start, ObjectsPerSpan(size, c.pages), 0, []))
    requires span.freelistHead == INVALID_INDEX
    requires span.start in h && h[span.start] == SpanInfo(c.pages, size, false)
    requires span.start in live && live[span.start] == span
    ensures var c', objs' := Fetch(c, span.start), [span] + objs;
            && CflOk(c') && Matches(c', objs') && Placed(c', objs', h, live) && Held(c', objs', m, size)
            && CurrentOf(c', objs') == span && FreeCount(c'.spans) == FreeCount(c.spans)
  {
    var c' := Fetch(c, span.start);
    assert c'.spans[1..] == c.spans;
    assert SpanOk(c'.spans[0]);
  }

  class CentralFreeList {
    const pageHeap: PageHeap
    const ram: Ram
    const size: uint32
    const pages: uint8
    var spanList: Span?
    var currentSpan: Span?
    var numFree: nat

    ghost var st: Cfl            // the abstract value
    ghost var objs: seq<Span>    // the span list, in order

    /** What the class table must offer: room for a node in an object, 16-bit indices in a span. */
    ghost predicate Configured()
      reads `st
    {
      && st.size == size && st.pages == pages
      && (size > 0 && pages > 0 ==>
            NODE_SIZE <= size < UINT32_MAX && ObjectsPerSpan(size, pages) <= UINT16_MAX)
    }

    /** Also holds in the middle of an operation. */
    ghost predicate Inv()
      reads this, objs, ram, pageHeap, pageHeap.freeLists, pageHeap.spans.Values
    {
      && Configured() && CflShape(st)
      && Matches(st, objs) && Placed(st, objs, pageHeap.h, pageHeap.spans) && Held(st, objs, ram.words, size)
      && Linked(objs, spanList) && currentSpan == CurrentOf(st, objs) && numFree == FreeCount(st.spans)
      && pageHeap.Valid()
    }

    ghost predicate Valid()
      reads this, objs, ram, pageHeap, pageHeap.freeLists, pageHeap.spans.Values
    {
      Inv() && CflOk(st)
    }

    constructor (pageHeap: PageHeap, ram: Ram, size: uint32, pages: uint8)
      requires pageHeap.Valid()
      requires size > 0 && pages > 0 ==>
                 NODE_SIZE <= size < UINT32_MAX && ObjectsPerSpan(size, pages) <= UINT16_MAX
      ensures Valid() && st == Cfl(size, pages, [], None)
      ensures this.pageHeap == pageHeap && this.ram == ram && this.size == size && this.pages == pages
    {
      this.pageHeap, this.ram, this.size, this.pages := pageHeap, ram, size, pages;
      spanList, currentSpan, numFree := null, null, 0;
      st, objs := Cfl(size, pages, [], None), [];
    }

    // ---- carving ----

    /** Writes the node at `nodeIdx` and packs the indices behind it, until it is full or at `chunkEnd`. */
    method FillNode(base: nat, nodeIdx: uint16, next: uint16, chunkEnd: nat) returns (packed: uint16)
      requires size >= NODE_SIZE && nodeIdx < chunkEnd <= UINT16_MAX
      modifies ram
      ensures packed <= PackCapacity(size) && nodeIdx + 1 + packed <= chunkEnd
      ensures packed == PackCapacity(size) || nodeIdx + 1 + packed == chunkEnd
      ensures WritesInObject(old(ram.words), ram.words, base, size, nodeIdx)
      ensures var p := IndexToPtr(nodeIdx, base, size);
              && Word(ram.words, NextAt(p)) == next && Word(ram.words, CountAt(p)) == packed
              && forall k | 0 <= k < packed :: Word(ram.words, SlotAt(p, k)) == nodeIdx + 1 + k
    {
      var p := IndexToPtr(nodeIdx, base, size);
      var cap := PackCapacity(size);
      HeaderInObject(nodeIdx, base, size);
      ram.words := ram.words[NextAt(p) := next];
      var i := nodeIdx + 1;
      packed := 0;
      while packed < cap && i < chunkEnd
        invariant packed <= cap && i == nodeIdx + 1 + packed <= chunkEnd
        invariant WritesInObject(old(ram.words), ram.words, base, size, nodeIdx)
        invariant Word(ram.words, NextAt(p)) == next
        invariant forall k | 0 <= k < packed :: Word(ram.words, SlotAt(p, k)) == nodeIdx + 1 + k
      {
        NodeInObject(nodeIdx, base, size, packed);
        ram.words := ram.words[SlotAt(p, packed) := i];
        packed := packed + 1;
        i := i + 1;
      }
      ram.words := ram.words[CountAt(p) := packed];
    }

    /** Span k, whose fields and words were just written, now stands for `sp`. */
    ghost method Restate(k: nat, sp: SpanState, m: Memory, w: SpanState)
      requires Configured() && CflShape(st) && k < |objs| == |st.spans|
      requires Placed(st, objs, pageHeap.h, pageHeap.spans) && Linked(objs, spanList)
      requires currentSpan == CurrentOf(st, objs)
      requires numFree + |st.spans[k].free| == FreeCount(st.spans) + |sp.free|
      requires SpanShape(sp) && sp.start == st.spans[k].start && sp.total == st.spans[k].total
      requires SpanMatches(objs[k], sp)
      requires forall j | 0 <= j < |objs| && j != k :: SpanMatches(objs[j], st.spans[j])
      requires forall j | 0 <= j < |objs| && j != k ::
                 IsList(m, Base(st.spans[j]), size, objs[j].freelistHead, st.spans[j].free)
      requires IsList(ram.words, Base(sp), size, objs[k].freelistHead, sp.free)
      requires WritesWithin(m, ram.words, w, size) && w.start == sp.start && w.total == sp.total
      requires pageHeap.Valid()
      modifies this`st
      ensures Inv() && st == old(st).(spans := old(st).spans[k := sp])
    {
      hide SpanMatches, SpanShape, CflShape, IsList, WritesWithin, Matches, Placed, Held, Linked, CurrentOf;
      hide Disjoint;
      ShapeSized(st);
      HeldReplace(st, objs, pageHeap.h, pageHeap.spans, m, ram.words, size, k, w, sp);
      MatchesReplace(st, objs, k, sp);
      PlacedReplace(st, objs, pageHeap.h, pageHeap.spans, k, sp);
      ShapeReplace(st, objs, k, sp);
      FreeCountReplace(st.spans, k, sp);
      st := st.(spans := st.spans[k := sp]);
    }

    /** One span's part of the invariant. */
    lemma SpanFacts(k: nat)
      requires Inv() && k < |objs|
      ensures |objs| == |st.spans| && st.size == size && st.pages == pages && CflShape(st)
      ensures size >= NODE_SIZE && pages > 0 && st.spans[k].total <= UINT16_MAX
      ensures SpanShape(st.spans[k]) && SpanMatches(objs[k], st.spans[k])
      ensures st.spans[k].total == ObjectsPerSpan(size, pages)
      ensures IsList(ram.words, Base(st.spans[k]), size, objs[k].freelistHead, st.spans[k].free)
      ensures InUse(pageHeap.h, st.spans[k].start) && pageHeap.Live(objs[k])
      ensures objs[k] in pageHeap.spans.Values && objs[k] !in pageHeap.FreeSpans()
      ensures forall j | 0 <= j < |objs| && j != k ::
                && objs[j] != objs[k] && SpanMatches(objs[j], st.spans[j])
                && IsList(ram.words, Base(st.spans[j]), size, objs[j].freelistHead, st.spans[j].free)
    {
      pageHeap.NotFree(st.spans[k].start);
      pageHeap.LiveFields(st.spans[k].start);
    }

    /** The carving loop: packs the objects up to `chunkEnd` into nodes on the span's list. */
    method CarveChunk(span: Span, chunkEnd: nat, ghost sp: SpanState)
      requires size >= NODE_SIZE && SpanShape(sp) && SpanMatches(span, sp)
      requires sp.carved <= chunkEnd <= sp.total <= UINT16_MAX
      requires IsList(ram.words, Base(sp), size, span.freelistHead, sp.free)
      modifies this`numFree, ram, span`freelistHead, span`numFreeObjects
      ensures IsList(ram.words, Base(sp), size, span.freelistHead, Down(sp.carved, chunkEnd) + sp.free)
      ensures span.numFreeObjects == |sp.free| + (chunkEnd - sp.carved)
      ensures numFree == old(numFree) + (chunkEnd - sp.carved)
      ensures WritesWithin(old(ram.words), ram.words, sp, size)
    {
      hide SpanShape, IsList, WritesWithin, WritesInObject;
      CarveStart(sp);
      var base := span.start * PAGE_SIZE;
      var i := span.nextUninitialized;
      while i < chunkEnd
        invariant sp.carved <= i <= chunkEnd
        invariant IsList(ram.words, base, size, span.freelistHead, Down(sp.carved, i) + sp.free)
        invariant span.numFreeObjects == |sp.free| + (i - sp.carved)
        invariant numFree == old(numFree) + (i - sp.carved)
        invariant WritesWithin(old(ram.words), ram.words, sp, size)
      {
        ghost var m := ram.words;
        var packed := FillNode(base, i, span.freelistHead, chunkEnd);
        CarveNode(old(ram.words), m, ram.words, sp, span.freelistHead, i, packed);
        span.freelistHead := i;
        i := i + 1 + packed;
        span.numFreeObjects := span.numFreeObjects + 1 + packed;
        numFree := numFree + 1 + packed;
      }
    }

    /** populate_span: carves the next chunk of span k into packed nodes. */
    method PopulateSpan(span: Span, ghost k: nat)
      requires Inv() && k < |objs| && objs[k] == span
      modifies this`numFree, this`st, ram, span`freelistHead, span`numFreeObjects, span`nextUninitialized
      ensures Inv()
      ensures st == old(st).(spans := old(st).spans[k := Populate(old(st).spans[k], size)])
      ensures ChunkOrDone(old(st).spans[k], st.spans[k], size)
      ensures WritesWithin(old(ram.words), ram.words, old(st).spans[k], size)
    {
      hide Matches, Held, Placed, Linked, CurrentOf, CflShape, SpanShape, IsList, WritesWithin, PageHeap.Valid;
      hide FreeCount, Position, ChunkOrDone, Populate, Configured, ObjectsPerSpan;
      SpanFacts(k);
      ghost var sp := st.spans[k];
      CarveStart(sp);
      CarvedChunk(sp);
      if span.nextUninitialized >= span.totalObjects {
        assert st.spans[k := sp] == st.spans;
        return;
      }
      var objectsPerChunk := if PAGE_SIZE / size > 1 then PAGE_SIZE / size else 1;
      var chunkEnd := if span.nextUninitialized + objectsPerChunk < span.totalObjects
                      then span.nextUninitialized + objectsPerChunk else span.totalObjects;
      CarvedShape(sp);
      CarveChunk(span, chunkEnd, sp);
      span.nextUninitialized := chunkEnd;
      pageHeap.OwnerWrites();
      Restate(k, Populate(sp, size), old(ram.words), sp);
    }

    lemma CarvedChunk(sp: SpanState)
      requires SpanShape(sp) && size > 0
      ensures ChunkOrDone(sp, Populate(sp, size), size) && (sp.carved >= sp.total ==> Populate(sp, size) == sp)
    {
      PopulateChunk(sp, size);
    }

    lemma CarveStart(sp: SpanState)
      ensures Down(sp.carved, sp.carved) + sp.free == sp.free
      ensures forall m: Memory :: WritesWithin(m, m, sp, size)
    {
    }

    lemma CarvedShape(sp: SpanState)
      requires SpanShape(sp) && size > 0 && sp.carved < sp.total
      ensures SpanShape(Populate(sp, size)) && |Populate(sp, size).free| == |sp.free| + ChunkEnd(sp, size) - sp.carved
      ensures var end := ChunkEnd(sp, size);
              Populate(sp, size) == sp.(free := Down(sp.carved, end) + sp.free, carved := end)
    {
      DownMembers(sp.carved, ChunkEnd(sp, size));
      JoinDistinct(Down(sp.carved, ChunkEnd(sp, size)), sp.free);
    }

    lemma CarveWrites(m: Memory, m0: Memory, m1: Memory, sp: SpanState, i: nat)
      requires SpanShape(sp) && sp.carved <= i < sp.total
      requires WritesWithin(m, m0, sp, size) && WritesInObject(m0, m1, Base(sp), size, i)
      ensures WritesWithin(m, m1, sp, size)
    {
    }

    /** One more node carved: the list grows by it and its slots, inside uncarved objects. */
    lemma CarveNode(m: Memory, m0: Memory, m1: Memory, sp: SpanState, head: uint16, i: nat, packed: uint16)
      requires SpanShape(sp) && size >= NODE_SIZE && sp.carved <= i < sp.total <= UINT16_MAX
      requires packed <= PackCapacity(size)
      requires IsList(m0, Base(sp), size, head, Down(sp.carved, i) + sp.free)
      requires WritesWithin(m, m0, sp, size) && WritesInObject(m0, m1, Base(sp), size, i)
      requires var p := IndexToPtr(i, Base(sp), size);
               && Word(m1, NextAt(p)) == head && Word(m1, CountAt(p)) == packed
               && forall k | 0 <= k < packed :: Word(m1, SlotAt(p, k)) == i + 1 + k
      ensures IsList(m1, Base(sp), size, i, Down(sp.carved, i + 1 + packed) + sp.free)
      ensures WritesWithin(m, m1, sp, size)
    {
      hide WritesInObject, WritesWithin, IsList;
      DownMembers(sp.carved, i);
      CarveWrites(m, m0, m1, sp, i);
      OthersSame(m0, m1, Base(sp), size, i);
      BuildNode(m0, m1, Base(sp), size, head, Down(sp.carved, i) + sp.free, i, packed);
      DownJoin(sp.carved, i, i + 1 + packed, sp.free);
    }

    // ---- taking an object ----

    /** The top of a non-empty packed list, and what is left without it. */
    lemma TopFacts(m: Memory, sp: SpanState, head: uint16)
      requires SpanShape(sp) && sp.total <= UINT16_MAX && size >= NODE_SIZE && head != INVALID_INDEX
      requires IsList(m, Base(sp), size, head, sp.free)
      ensures sp.free != [] && SpanShape(sp.(free := sp.free[1..]))
      ensures var p := IndexToPtr(head, Base(sp), size);
              var count := Word(m, CountAt(p));
              if count > 0 then
                var m' := m[CountAt(p) := count - 1];
                && sp.free[0] == Word(m, SlotAt(p, count - 1))
                && IsList(m', Base(sp), size, head, sp.free[1..]) && WritesWithin(m, m', sp, size)
              else
                sp.free[0] == head && IsList(m, Base(sp), size, Word(m, NextAt(p)), sp.free[1..])
    {
      hide IsList, SpanShape, SlotsHold, Outstanding, WritesWithin;
      TopIn(m, sp, head);
      RestShape(sp);
      var p := IndexToPtr(head, Base(sp), size);
      var count := Word(m, CountAt(p));
      if count > 0 {
        PopSlot(m, Base(sp), size, head, sp.free);
        HeaderInObject(head, Base(sp), size);
        WritesObject(m, m[CountAt(p) := count - 1], CountAt(p), CountAt(p), sp, size, head);
      } else {
        PopNode(m, Base(sp), size, head, sp.free);
      }
    }

    lemma TopIn(m: Memory, sp: SpanState, head: uint16)
      requires SpanShape(sp) && head != INVALID_INDEX && IsList(m, Base(sp), size, head, sp.free)
      ensures sp.free != [] && head < sp.total && !Outstanding(sp, head) && Distinct(sp.free)
    {
      assert sp.free[Word(m, CountAt(IndexToPtr(head, Base(sp), size)))] in sp.free;
    }

    lemma RestShape(sp: SpanState)
      requires SpanShape(sp) && sp.free != []
      ensures SpanShape(sp.(free := sp.free[1..]))
    {
      assert forall i | i in sp.free[1..] :: i in sp.free;
    }

    /** Takes the top object off span k's packed list. */
    method TakeObject(span: Span, ghost k: nat) returns (ptr: nat)
      requires Inv() && k < |objs| && objs[k] == span && span.freelistHead != INVALID_INDEX
      modifies this`numFree, this`st, ram, span`freelistHead, span`numFreeObjects
      ensures Inv() && old(st).spans[k].free != []
      ensures var sp := old(st).spans[k];
              && st == old(st).(spans := old(st).spans[k := sp.(free := sp.free[1..])])
              && ptr == Address(Object(sp.start, sp.free[0]), size)
              && WritesWithin(old(ram.words), ram.words, sp, size)
    {
      hide Matches, Held, Placed, Linked, CurrentOf, CflShape, SpanShape, IsList, WritesWithin, PageHeap.Valid;
      hide FreeCount, Position;
      SpanFacts(k);
      ghost var sp := st.spans[k];
      CarveStart(sp);
      TopFacts(ram.words, sp, span.freelistHead);
      ghost var rest := sp.(free := sp.free[1..]);
      FreeCountReplace(st.spans, k, rest);
      var base := span.start * PAGE_SIZE;
      var node := IndexToPtr(span.freelistHead, base, size);
      var count := Word(ram.words, CountAt(node));
      if count > 0 {
        ptr := IndexToPtr(Word(ram.words, SlotAt(node, count - 1)), base, size);
        ram.words := ram.words[CountAt(node) := count - 1];
      } else {
        ptr := node;
        span.freelistHead := Word(ram.words, NextAt(node));
      }
      span.numFreeObjects := span.numFreeObjects - 1;
      numFree := numFree - 1;
      pageHeap.OwnerWrites();
      Restate(k, rest, old(ram.words), sp);
    }

    // ---- choosing a span ----

    static predicate SpanHasAvailableObjects(span: Span)
      reads span
    {
      span.freelistHead != INVALID_INDEX || span.nextUninitialized < span.totalObjects
    }

    lemma AvailableExact(k: nat)
      requires Inv() && k < |objs|
      ensures |objs| == |st.spans| && SpanHasAvailableObjects(objs[k]) == HasAvailable(st.spans[k])
    {
    }

    /** The first span of the list with an object to give. */
    method FindAvailableSpan() returns (s: Span?)
      requires Inv()
      ensures s == At(objs, FirstAvailable(st.spans))
    {
      hide Matches, Held, Placed, CflShape, Linked, PageHeap.Valid, HasAvailable, SpanHasAvailableObjects;
      hide FirstAvailable, Position, FreeCount, CurrentOf, Configured;
      s := spanList;
      ghost var k := 0;
      ListFirst();
      while s != null
        invariant 0 <= k <= |objs| == |st.spans| && s == At(objs, k)
        invariant forall j | 0 <= j < k :: !HasAvailable(st.spans[j])
        decreases |objs| - k
      {
        AvailableExact(k);
        if SpanHasAvailableObjects(s) { return; }
        ListNext(k);
        s := s.next;
        k := k + 1;
      }
    }

    lemma ListFirst()
      requires Inv()
      ensures |objs| == |st.spans| && spanList == At(objs, 0)
    {
    }

    lemma ListNext(k: nat)
      requires Inv() && k < |objs|
      ensures objs[k].next == At(objs, k + 1)
    {
    }

    lemma ListLength()
      requires Inv()
      ensures |objs| == |st.spans|
      ensures forall j, k | 0 <= j < k < |objs| :: st.spans[j].start != st.spans[k].start && objs[j] != objs[k]
      ensures st.current.Some? ==> Position(st.spans, st.current.value) < |st.spans|
    {
    }

    /** The span that the list's choice of a start stands for. */
    lemma ChosenSpan()
      requires Inv()
      ensures currentSpan != null ==> currentSpan in objs
      ensures Chosen(st).Some? ==> Position(st.spans, Chosen(st).value) < |st.spans|
      ensures CurrentOf(st.(current := Chosen(st)), objs)
              == if currentSpan != null && SpanHasAvailableObjects(currentSpan) then currentSpan
                 else At(objs, FirstAvailable(st.spans))
    {
      hide Matches, Held, Placed, CflShape, Linked, PageHeap.Valid, HasAvailable, SpanHasAvailableObjects;
      hide FirstAvailable, Position, FreeCount;
      ListLength();
      var p := if st.current.Some? then Position(st.spans, st.current.value) else |st.spans|;
      if p < |objs| { AvailableExact(p); }
      var k := FirstAvailable(st.spans);
      if k < |st.spans| { PositionOf(st.spans, k); }
    }

    /** Keeps the current span while it has an object to give, else moves to the first that has. */
    method ChooseSpan()
      requires Inv()
      modifies this`currentSpan, this`st
      ensures Inv() && st == old(st).(current := Chosen(old(st)))
    {
      hide Matches, Held, Placed, CflShape, Linked, PageHeap.Valid, SpanHasAvailableObjects;
      hide Chosen, FirstAvailable, Position, FreeCount, CurrentOf, At;
      ChosenSpan();
      if currentSpan == null || !SpanHasAvailableObjects(currentSpan) {
        currentSpan := FindAvailableSpan();
      }
      CurrentFree(st, objs, pageHeap.h, pageHeap.spans, ram.words, size, Chosen(st));
      st := st.(current := Chosen(st));
    }

    // ---- fetching a span ----

    /** Nothing of this list is where the page heap keeps its free spans. */
    lemma Apart()
      requires Inv()
      ensures |objs| == |st.spans|
      ensures forall s | s in objs :: s !in pageHeap.FreeSpans() && s in pageHeap.spans.Values
    {
      forall k | 0 <= k < |objs|
        ensures objs[k] !in pageHeap.FreeSpans() && objs[k] in pageHeap.spans.Values
      {
        SpanFacts(k);
      }
    }

    /** The list's spans are where they were after the page heap served a request. */
    lemma StillPlaced(h0: Heap, live0: map<nat, Span>)
      requires Placed(st, objs, h0, live0) && Untouched(h0, live0, pageHeap.h, pageHeap.spans)
      ensures Placed(st, objs, pageHeap.h, pageHeap.spans)
      ensures forall x | !InUse(h0, x) :: Position(st.spans, x) == |st.spans|
    {
      assert forall k | 0 <= k < |st.spans| :: InUse(h0, st.spans[k].start);
    }

    /** Asks the page heap for pages of this class. */
    method RequestSpan(os: Option<nat>) returns (span: Span?)
      requires Valid() && size > 0 && pages > 0
      requires os.Some? ==> FreshPages(pageHeap.h, os.value, pages)
      modifies pageHeap, pageHeap.freeLists, pageHeap.FreeSpans()
      ensures Valid()
      ensures span == null ==> pageHeap.h == old(pageHeap.h) && !AnyFits(old(pageHeap.h), pages) && os.None?
      ensures span != null ==>
                && Served(old(pageHeap.h), pageHeap.h, span.start, pages, size, os)
                && pageHeap.Live(span) && pageHeap.h[span.start] == SpanInfo(pages, size, false)
                && span !in objs && Position(st.spans, span.start) == |st.spans|
                && (fresh(span) || span in old(pageHeap.FreeSpans()))
      ensures Untouched(old(pageHeap.h), old(pageHeap.spans), pageHeap.h, pageHeap.spans)
      ensures forall s | s in pageHeap.FreeSpans() :: fresh(s) || s in old(pageHeap.FreeSpans())
    {
      hide Matches, Held, Placed, CflShape, CflOk, Linked, CurrentOf, Served, Position, FreeCount;
      hide PageHeap.FreeSpans, PageHeap.Valid;
      Apart();
      pageHeap.ValidFacts();
      span := pageHeap.AllocateSpan(pages, size, os);
      if span != null {
        ServedLaws(old(pageHeap.h), pageHeap.h, span.start, pages, size, os);
      }
      StillPlaced(old(pageHeap.h), old(pageHeap.spans));
    }

    method LinkFront(span: Span)
      requires Linked(objs, spanList) && Distinct(objs) && span !in objs
      modifies this`spanList, objs`prev, span`next, span`prev
      ensures spanList == span && Linked([span] + objs, span)
    {
      span.next := spanList;
      span.prev := null;
      if spanList != null {
        spanList.prev := span;
      }
      spanList := span;
      LinkedInsert(objs, 0, span, span);
      assert InsertAt(objs, 0, span) == [span] + objs;
    }

    static method SetUp(span: Span, count: nat)
      modifies span`totalObjects, span`freelistHead, span`numFreeObjects, span`nextUninitialized
      ensures span.totalObjects == count && span.freelistHead == INVALID_INDEX
      ensures span.numFreeObjects == span.nextUninitialized == 0
    {
      span.totalObjects := count;
      span.freelistHead := INVALID_INDEX;
      span.numFreeObjects := 0;
      span.nextUninitialized := 0;
    }

    /** Links a fetched span at the front of the list and makes it current. */
    method AdoptSpan(span: Span)
      requires Valid() && size > 0 && pages > 0
      requires pageHeap.Live(span) && pageHeap.h[span.start] == SpanInfo(pages, size, false)
      requires span !in objs && Position(st.spans, span.start) == |st.spans|
      modifies this`spanList, this`currentSpan, this`st, this`objs, objs`prev
      modifies span`next, span`prev, span`totalObjects, span`freelistHead, span`numFreeObjects, span`nextUninitialized
      ensures Valid() && st == Fetch(old(st), span.start) && objs == [span] + old(objs)
    {
      hide Matches, Held, Placed, CflShape, CflOk, CurrentOf, Position, FreeCount, PageHeap.Valid;
      hide Linked, At;
      Apart();
      ListLength();
      pageHeap.UsedFacts(span.start);
      LinkFront(span);
      var totalBytes := span.numPages * PAGE_SIZE;
      var count := totalBytes / size;
      SetUp(span, count);
      currentSpan := span;

      pageHeap.OwnerWrites();
      Adopted(span);
    }

    ghost method Adopted(span: Span)
      requires Configured() && CflOk(st) && size > 0 && pages > 0 && Position(st.spans, span.start) == |st.spans|
      requires Matches(st, objs) && Placed(st, objs, pageHeap.h, pageHeap.spans) && Held(st, objs, ram.words, size)
      requires SpanMatches(span, SpanState(span.start, ObjectsPerSpan(size, pages), 0, []))
      requires span.freelistHead == INVALID_INDEX && numFree == FreeCount(st.spans)
      requires pageHeap.Live(span) && pageHeap.h[span.start] == SpanInfo(pages, size, false)
      requires Linked([span] + objs, spanList) && currentSpan == span && pageHeap.Valid()
      modifies this`st, this`objs
      ensures Valid() && st == Fetch(old(st), span.start) && objs == [span] + old(objs)
    {
      hide Matches, Held, Placed, CflShape, CflOk, CurrentOf, Position, FreeCount, PageHeap.Valid, SpanMatches, Linked;
      hide Fetch;
      FetchExact(st, objs, pageHeap.h, pageHeap.spans, ram.words, size, span);
      FetchShape(st, span.start);
      st, objs := Fetch(st, span.start), [span] + objs;
    }

    lemma FetchShape(c: Cfl, start: nat)
      requires c.size > 0
      ensures Fetch(c, start).size == c.size && Fetch(c, start).pages == c.pages
      ensures CflOk(Fetch(c, start)) ==> CflShape(Fetch(c, start))
    {
    }

    /** fetch_from_page_heap: adds a span of this class's pages, when the page heap has one. */
    method FetchFromPageHeap(os: Option<nat>) returns (ghost got: Option<nat>)
      requires Valid() && st.current.None?
      requires os.Some? ==> FreshPages(pageHeap.h, os.value, pages)
      modifies this`spanList, this`currentSpan, this`st, this`objs, objs`prev
      modifies pageHeap, pageHeap.freeLists, pageHeap.FreeSpans()
      ensures Valid()
      ensures got.None? ==> st == old(st) && objs == old(objs) && pageHeap.h == old(pageHeap.h)
      ensures got.None? && size > 0 && pages > 0 ==> !AnyFits(old(pageHeap.h), pages) && os.None?
      ensures got.Some? ==>
                && size > 0 && pages > 0 && Position(old(st).spans, got.value) == |old(st).spans|
                && Served(old(pageHeap.h), pageHeap.h, got.value, pages, size, os)
                && st == Fetch(old(st), got.value)
      ensures Untouched(old(pageHeap.h), old(pageHeap.spans), pageHeap.h, pageHeap.spans)
      ensures forall s | s in objs :: s in old(objs) || fresh(s) || s in old(pageHeap.FreeSpans())
      ensures forall s | s in pageHeap.FreeSpans() :: fresh(s) || s in old(pageHeap.FreeSpans())
    {
      hide Matches, Held, Placed, CflShape, CflOk, CurrentOf, Position, FreeCount, PageHeap.Valid, Linked, Served;
      hide PageHeap.FreeSpans, Untouched;
      got := None;
      pageHeap.ValidFacts();
      UntouchedSame(pageHeap.h, pageHeap.spans);
      if size == 0 || pages == 0 { return; }
      var span := RequestSpan(os);
      if span == null { return; }
      got := Some(span.start);
      AdoptSpan(span);
    }

    lemma HeadExact(k: nat)
      requires Inv() && k < |objs|
      ensures |objs| == |st.spans| && (objs[k].freelistHead == INVALID_INDEX <==> st.spans[k].free == [])
    {
    }

    lemma FilledWrites(k: nat, sp: SpanState, m0: Memory, m1: Memory, m2: Memory)
      requires SpanShape(sp) && size > 0
      requires WritesWithin(m0, m1, sp, size)
      requires WritesWithin(m1, m2, if sp.free == [] then Populate(sp, size) else sp, size)
      ensures WritesWithin(m0, m2, sp, size)
    {
      if sp.free == [] {
        PopulateOk(sp, size);
        WritesJoin(m0, m1, m2, sp, Populate(sp, size), size);
      } else {
        WritesJoin(m0, m1, m2, sp, sp, size);
      }
    }

    /** The last steps of allocate: carves when nothing is free, then takes the top object. */
    method TakeFromSpan(span: Span, ghost k: nat) returns (ptr: Option<nat>)
      requires Inv() && k < |objs| && objs[k] == span && size > 0
      modifies this`numFree, this`st, ram, span`freelistHead, span`numFreeObjects, span`nextUninitialized
      ensures Inv() && old(|st.spans|) > k
      ensures var (c, o) := TakeFrom(old(st), k);
              st == c && ptr == if o.Some? then Some(Address(o.value, size)) else None
      ensures WritesWithin(old(ram.words), ram.words, old(st).spans[k], size)
    {
      hide Matches, Held, Placed, CflShape, CurrentOf, Position, FreeCount, PageHeap.Valid, Linked, WritesWithin;
      hide Populate, IsList, SpanShape, Configured, SpanMatches, Outstanding;
      HeadExact(k);
      SpanFacts(k);
      CarveStart(st.spans[k]);
      ghost var sp := st.spans[k];
      if span.freelistHead == INVALID_INDEX {
        PopulateSpan(span, k);
        HeadExact(k);
      }
      assert st.spans[k] == if sp.free == [] then Populate(sp, size) else sp;
      if span.freelistHead == INVALID_INDEX {
        return None;
      }
      ghost var m := ram.words;
      var p := TakeObject(span, k);
      ptr := Some(p);
      FilledWrites(k, sp, old(ram.words), m, ram.words);
    }

    /** Takes one object, from a listed span if any has one, else from a span fetched for it. */
    method Allocate(os: Option<nat>) returns (ptr: Option<nat>, ghost got: Option<nat>)
      requires Valid()
      requires os.Some? ==> FreshPages(pageHeap.h, os.value, pages)
      modifies this, objs, ram, pageHeap, pageHeap.freeLists, pageHeap.FreeSpans()
      ensures Valid()
      ensures got.Some? ==>
                && Asks(old(st)) && Position(old(st).spans, got.value) == |old(st).spans|
                && Served(old(pageHeap.h), pageHeap.h, got.value, pages, size, os)
      ensures got.None? ==> pageHeap.h == old(pageHeap.h)
      ensures got.None? && Asks(old(st)) ==> !AnyFits(old(pageHeap.h), pages) && os.None?
      ensures var (c, o) := AllocateOp(old(st), got);
              st == c && ptr == if o.Some? then Some(Address(o.value, size)) else None
      ensures Respects(Ready(old(st), got), old(ram.words), ram.words)
      ensures Untouched(old(pageHeap.h), old(pageHeap.spans), pageHeap.h, pageHeap.spans)
      ensures forall s | s in objs :: s in old(objs) || fresh(s) || s in old(pageHeap.FreeSpans())
      ensures forall s | s in pageHeap.FreeSpans() :: fresh(s) || s in old(pageHeap.FreeSpans())
    {
      hide Matches, Held, Placed, CflShape, CurrentOf, Position, FreeCount, PageHeap.Valid, Linked, WritesWithin;
      hide TakeFrom, Respects, Served, AnyFits, FreshPages, PageHeap.FreeSpans, CflOk, Fetch, Chosen, Untouched;
      ReadyOk(st, None);
      pageHeap.ValidFacts();
      UntouchedSame(pageHeap.h, pageHeap.spans);
      ChooseSpan();
      HeapFacts();
      got := None;
      if currentSpan == null {
        got := FetchFromPageHeap(os);
        HeapFacts();
      }
      AllocateOk(old(st), got);
      RespectsSame(Ready(old(st), got), ram.words);
      if currentSpan == null { return None, got; }
      ghost var k := Position(st.spans, st.current.value);
      ghost var m := ram.words;
      ptr := TakeFromSpan(currentSpan, k);
      SpanRespects(Ready(old(st), got), pageHeap.h, k, m, ram.words);
    }

    lemma HeapFacts()
      requires Inv()
      ensures CflShape(st) && Disjoint(pageHeap.h) && SpansInUse(st, pageHeap.h) && |objs| == |st.spans|
      ensures currentSpan == null <==> st.current.None?
      ensures st.current.Some? ==>
                var k := Position(st.spans, st.current.value);
                k < |objs| && currentSpan == objs[k] && size > 0
      ensures st.size == size && st.pages == pages
    {
    }

    // ---- giving an object back ----

    lemma PushedShape(sp: SpanState, idx: nat)
      requires SpanShape(sp) && Outstanding(sp, idx)
      ensures SpanShape(Pushed(sp, idx)) && idx < sp.total && idx !in sp.free && !Outstanding(Pushed(sp, idx), idx)
      ensures Distinct(sp.free)
    {
      assert [idx][0] == idx;
      JoinDistinct([idx], sp.free);
    }

    /** Either way deallocate stores a freed object pushes it, writing only objects nobody holds. */
    lemma PushFacts(m: Memory, sp: SpanState, head: uint16, idx: uint16)
      requires SpanShape(sp) && Outstanding(sp, idx) && sp.total <= UINT16_MAX && size >= NODE_SIZE
      requires IsList(m, Base(sp), size, head, sp.free)
      ensures var p := IndexToPtr(idx, Base(sp), size);
              var m' := m[NextAt(p) := head][CountAt(p) := 0];
              IsList(m', Base(sp), size, idx, Pushed(sp, idx).free) && WritesWithin(m, m', Pushed(sp, idx), size)
      ensures head != INVALID_INDEX ==>
                var p := IndexToPtr(head, Base(sp), size);
                var count := Word(m, CountAt(p));
                count < PackCapacity(size) ==>
                  var m' := m[SlotAt(p, count) := idx][CountAt(p) := count + 1];
                  IsList(m', Base(sp), size, head, Pushed(sp, idx).free) && WritesWithin(m, m', Pushed(sp, idx), size)
    {
      hide IsList, SpanShape, Outstanding, WritesWithin, SlotsHold;
      PushedShape(sp, idx);
      PushNode(m, Base(sp), size, head, sp.free, idx);
      HeaderInObject(idx, Base(sp), size);
      var p := IndexToPtr(idx, Base(sp), size);
      WritesObject(m, m[NextAt(p) := head][CountAt(p) := 0], NextAt(p), CountAt(p), Pushed(sp, idx), size, idx);
      if head != INVALID_INDEX && Word(m, CountAt(IndexToPtr(head, Base(sp), size))) < PackCapacity(size) {
        var q := IndexToPtr(head, Base(sp), size);
        var count := Word(m, CountAt(q));
        TopIn(m, sp, head);
        StillFree(sp, idx, head);
        PushSlot(m, Base(sp), size, head, sp.free, idx);
        NodeInObject(head, Base(sp), size, count);
        WritesObject(m, m[SlotAt(q, count) := idx][CountAt(q) := count + 1], SlotAt(q, count), CountAt(q),
                     Pushed(sp, idx), size, head);
      }
    }

    lemma StillFree(sp: SpanState, idx: nat, i: nat)
      requires !Outstanding(sp, i)
      ensures !Outstanding(Pushed(sp, idx), i)
    {
    }

    /** There is a head node, with fewer indices packed in it than fit its object. */
    ghost predicate HeadHasSlot(head: uint16, sp: SpanState, m: Memory) {
      && head != INVALID_INDEX
      && Word(m, CountAt(IndexToPtr(head, Base(sp), size))) < PackCapacity(size)
    }

    /** Pushes a freed object: into a slot of the head node while it has one, else as a new node. */
    method PushObject(span: Span, ptr: nat, ghost k: nat, ghost idx: nat)
      requires Inv() && k < |objs| && objs[k] == span
      requires Outstanding(st.spans[k], idx) && ptr == IndexToPtr(idx, Base(st.spans[k]), size)
      modifies this`numFree, this`st, ram, span`freelistHead, span`numFreeObjects
      ensures Inv() && st == old(st).(spans := old(st).spans[k := Pushed(old(st).spans[k], idx)])
      ensures span.freelistHead == if HeadHasSlot(old(span.freelistHead), old(st).spans[k], old(ram.words))
                                   then old(span.freelistHead) else idx
      ensures WritesWithin(old(ram.words), ram.words, Pushed(old(st).spans[k], idx), size)
    {
      hide Matches, Held, Placed, Linked, CurrentOf, CflShape, SpanShape, IsList, WritesWithin, PageHeap.Valid;
      hide FreeCount, Position, Outstanding;
      SpanFacts(k);
      ghost var sp := st.spans[k];
      PushedShape(sp, idx);
      IndexRoundTrip(idx, Base(sp), size);
      PushFacts(ram.words, sp, span.freelistHead, idx);
      var base := span.start * PAGE_SIZE;
      var freedIdx := PtrToIndex(ptr, base, size);
      var head := IndexToPtr(span.freelistHead, base, size);
      var count := Word(ram.words, CountAt(head));
      if span.freelistHead != INVALID_INDEX && count < PackCapacity(size) {
        ram.words := ram.words[SlotAt(head, count) := freedIdx][CountAt(head) := count + 1];
      } else {
        ram.words := ram.words[NextAt(ptr) := span.freelistHead][CountAt(ptr) := 0];
        span.freelistHead := freedIdx;
      }
      span.numFreeObjects := span.numFreeObjects + 1;
      numFree := numFree + 1;
      pageHeap.OwnerWrites();
      Restate(k, Pushed(sp, idx), old(ram.words), Pushed(sp, idx));
    }

    // ---- releasing a span ----

    /** Unlinks span k from the span list. */
    method UnlinkSpan(span: Span, ghost k: nat)
      requires Linked(objs, spanList) && Distinct(objs) && k < |objs| && objs[k] == span
      modifies this`spanList, objs`next, objs`prev
      ensures Linked(Drop(objs, k), spanList)
    {
      if span.prev != null {
        span.prev.next := span.next;
      } else {
        spanList := span.next;
      }
      if span.next != null {
        span.next.prev := span.prev;
      }
      span.next := null;
      span.prev := null;
      LinkedDrop(objs, k, spanList);
    }

    static method ResetSpan(span: Span)
      modifies span`totalObjects, span`freelistHead, span`numFreeObjects, span`nextUninitialized
      ensures span.freelistHead == INVALID_INDEX
      ensures span.numFreeObjects == span.totalObjects == span.nextUninitialized == 0
    {
      span.freelistHead := INVALID_INDEX;
      span.numFreeObjects := 0;
      span.totalObjects := 0;
      span.nextUninitialized := 0;
    }

    /** What release_to_page_heap writes: counters, links and the span's own fields. */
    method LeaveList(span: Span, ghost k: nat)
      requires Linked(objs, spanList) && Distinct(objs) && k < |objs| && objs[k] == span
      requires span.numFreeObjects <= numFree
      modifies this`currentSpan, this`numFree, this`spanList, objs`next, objs`prev
      modifies span`totalObjects, span`freelistHead, span`numFreeObjects, span`nextUninitialized
      ensures Linked(Drop(objs, k), spanList)
      ensures currentSpan == if old(currentSpan) == span then null else old(currentSpan)
      ensures numFree + old(span.numFreeObjects) == old(numFree)
    {
      hide Linked, Distinct;
      if currentSpan == span {
        currentSpan := null;
      }
      numFree := numFree - span.numFreeObjects;
      UnlinkSpan(span, k);
      ResetSpan(span);
    }

    /** Span k, whose links and fields were just reset, is no longer the list's. */
    ghost method Forget(k: nat)
      requires Configured() && CflShape(st) && k < |objs| == |st.spans|
      requires Placed(st, objs, pageHeap.h, pageHeap.spans)
      requires forall j | 0 <= j < |objs| && j != k :: SpanMatches(objs[j], st.spans[j])
      requires forall j | 0 <= j < |objs| && j != k ::
                 IsList(ram.words, Base(st.spans[j]), size, objs[j].freelistHead, st.spans[j].free)
      requires Distinct(objs) && Linked(Drop(objs, k), spanList)
      requires numFree + |st.spans[k].free| == FreeCount(st.spans)
      requires currentSpan == if CurrentOf(st, objs) == objs[k] then null else CurrentOf(st, objs)
      requires pageHeap.Valid()
      modifies this`st, this`objs
      ensures Inv() && st == Unlist(old(st), k) && objs == Drop(old(objs), k)
      ensures Position(st.spans, old(st).spans[k].start) == |st.spans|
    {
      hide Matches, Held, Placed, Linked, CurrentOf, CflShape, IsList, PageHeap.Valid, SpanMatches, FreeCount, Position;
      UnlistShape(st, k);
      UnlistCurrent(st, objs, k);
      UnlistExact(st, objs, pageHeap.h, pageHeap.spans, ram.words, size, k);
      st, objs := Unlist(st, k), Drop(objs, k);
    }

    /** The list's half of release_to_page_heap: unlinks span k and resets it. */
    method DetachSpan(span: Span, ghost k: nat)
      requires Inv() && k < |objs| && objs[k] == span
      modifies this, objs`next, objs`prev
      modifies span`totalObjects, span`freelistHead, span`numFreeObjects, span`nextUninitialized
      ensures Inv() && st == Unlist(old(st), k) && objs == Drop(old(objs), k)
      ensures Position(st.spans, span.start) == |st.spans|
    {
      hide Matches, Held, Placed, Linked, CurrentOf, CflShape, IsList, PageHeap.Valid, FreeCount, Position, At;
      hide SpanShape;
      SpanFacts(k);
      ListLength();
      Apart();
      FreeCountDrop(st.spans, k);
      hide SpanMatches;
      LeaveList(span, k);
      pageHeap.OwnerWrites();
      Forget(k);
    }

    /** The list's other spans are where they were after one was returned. */
    lemma PlacedWithout(h0: Heap, live0: map<nat, Span>, a: nat)
      requires Placed(st, objs, h0, live0) && Position(st.spans, a) == |st.spans|
      requires ValidHeap(h0) && InUse(h0, a) && pageHeap.h == GiveBack(h0, a) && pageHeap.h.Keys == pageHeap.spans.Keys
      requires forall x | InUse(pageHeap.h, x) && x != a :: x in live0 && pageHeap.spans[x] == live0[x]
      ensures Placed(st, objs, pageHeap.h, pageHeap.spans)
      ensures Untouched(pageHeap.h, pageHeap.spans, h0, live0)
    {
      GiveBackLaws(h0, a);
      assert forall k | 0 <= k < |st.spans| :: InUse(h0, st.spans[k].start) && st.spans[k].start != a;
    }

    /** release_to_page_heap: unlinks span k, resets it and returns it. */
    method ReleaseToPageHeap(span: Span, ghost k: nat)
      requires Inv() && k < |objs| && objs[k] == span
      modifies this, objs, pageHeap, pageHeap.freeLists, pageHeap.FreeSpans()
      ensures Inv() && st == Unlist(old(st), k)
      ensures k < old(|st.spans|) && InUse(old(pageHeap.h), old(st).spans[k].start)
      ensures pageHeap.h == GiveBack(old(pageHeap.h), old(st).spans[k].start)
      ensures Untouched(pageHeap.h, pageHeap.spans, old(pageHeap.h), old(pageHeap.spans))
      ensures forall s | s in objs :: s in old(objs)
      ensures forall s | s in pageHeap.FreeSpans() :: s in old(pageHeap.FreeSpans()) || s == span || fresh(s)
    {
      hide Matches, Held, Placed, Linked, CurrentOf, CflShape, IsList, PageHeap.Valid, FreeCount, Position, GiveBack;
      hide PageHeap.FreeSpans, ValidHeap, SpanShape, SpanMatches, Inv, Unlist, Untouched;
      SpanFacts(k);
      ghost var a := span.start;
      DetachSpan(span, k);
      label Detached:
      Apart();
      InPlaceHeap();
      pageHeap.ValidFacts();
      ghost var rounds := pageHeap.ReturnSpan(span);
      pageHeap.ValidFacts();
      PlacedWithout(old(pageHeap.h), old(pageHeap.spans), a);
      StillInv@Detached();
    }

    lemma InPlaceHeap()
      requires Inv()
      ensures pageHeap.Valid() && Placed(st, objs, pageHeap.h, pageHeap.spans)
    {
    }

    /** The page heap has changed, but not where the list's spans are. */
    twostate lemma StillInv()
      requires old(Inv()) && unchanged(this) && ram.words == old(ram.words)
      requires pageHeap.Valid() && Placed(st, objs, pageHeap.h, pageHeap.spans) && forall s | s in objs :: s.Same()
      ensures Inv()
    {
      hide CurrentOf, CflShape, FreeCount, PageHeap.Valid, IsList, Placed;
      assert forall k | 0 <= k < |objs| :: objs[k] in objs && objs[k].Same();
    }

    // ---- deallocation ----

    /** The page map leads from an outstanding object's address to its span on the list. */
    lemma Located(ptr: nat, o: Object)
      requires Valid() && o in Outs(st) && ptr == Address(o, size)
      ensures var k := Position(st.spans, o.start);
              && k < |objs| == |st.spans| && Outstanding(st.spans[k], o.idx) && st.spans[k].start == o.start
              && InSpan(pageHeap.h, o.start, ptr / PAGE_SIZE)
              && forall span: Span | pageHeap.Live(span) && InSpan(pageHeap.h, span.start, ptr / PAGE_SIZE) ::
                 span == objs[k]
    {
      hide Matches, Held, Placed, Linked, CurrentOf, CflShape, IsList, PageHeap.Valid, FreeCount, Position, CflOk;
      OutPosition(st, o);
      HeapFacts();
      var k := Position(st.spans, o.start);
      SpanFacts(k);
      ObjectOnPages(o.start, pages, size, o.idx, ptr);
    }

    /** Pushes a freed object and releases its span when that was the last one out. */
    method PushAndRelease(span: Span, ptr: nat, ghost k: nat, ghost idx: nat)
      requires Valid() && k < |objs| && objs[k] == span
      requires Outstanding(st.spans[k], idx) && ptr == IndexToPtr(idx, Base(st.spans[k]), size)
      modifies this, objs, ram, pageHeap, pageHeap.freeLists, pageHeap.FreeSpans()
      ensures Inv() && k < |old(st).spans| && InUse(old(pageHeap.h), old(st).spans[k].start)
      ensures var c := old(st);
              && st == FreeOp(c, k, idx)
              && Respects(c.(spans := c.spans[k := Pushed(c.spans[k], idx)]), old(ram.words), ram.words)
              && pageHeap.h == if Releases(c, k) then GiveBack(old(pageHeap.h), c.spans[k].start) else old(pageHeap.h)
      ensures Untouched(pageHeap.h, pageHeap.spans, old(pageHeap.h), old(pageHeap.spans))
      ensures forall s | s in objs :: s in old(objs)
      ensures forall s | s in pageHeap.FreeSpans() :: s in old(pageHeap.FreeSpans()) || s in old(objs) || fresh(s)
    {
      hide Matches, Held, Placed, Linked, CurrentOf, CflShape, IsList, PageHeap.Valid, FreeCount, Position, GiveBack;
      hide PageHeap.FreeSpans, CflOk, Outstanding, WritesWithin, Respects, SpanShape, InSpan, Disjoint, Untouched;
      SpanFacts(k);
      pageHeap.ValidFacts();
      UntouchedSame(pageHeap.h, pageHeap.spans);
      PushObject(span, ptr, k, idx);
      HeapFacts();
      SpanRespects(st, pageHeap.h, k, old(ram.words), ram.words);
      SpanFacts(k);
      if span.numFreeObjects == span.totalObjects {
        ReleaseToPageHeap(span, k);
        UnlistPushed(old(st), k, idx);
      }
    }

    /** Frees the object at `ptr`, and returns its span once all of it is free. */
    method Deallocate(ptr: nat, ghost o: Object)
      requires Valid()
      requires ptr != 0 && Managed(pageHeap.h, ptr / PAGE_SIZE) ==> o in Outs(st) && ptr == Address(o, size)
      modifies this, objs, ram, pageHeap, pageHeap.freeLists, pageHeap.FreeSpans()
      ensures Valid()
      ensures forall s | s in objs :: s in old(objs)
      ensures forall s | s in pageHeap.FreeSpans() :: s in old(pageHeap.FreeSpans()) || s in old(objs) || fresh(s)
      ensures ptr == 0 || !Managed(old(pageHeap.h), ptr / PAGE_SIZE) ==>
                st == old(st) && ram.words == old(ram.words) && pageHeap.h == old(pageHeap.h)
      ensures ptr != 0 && Managed(old(pageHeap.h), ptr / PAGE_SIZE) ==>
                var c, k := old(st), Position(old(st).spans, o.start);
                && k < |c.spans| && Outstanding(c.spans[k], o.idx) && st == FreeOp(c, k, o.idx)
                && Respects(c.(spans := c.spans[k := Pushed(c.spans[k], o.idx)]), old(ram.words), ram.words)
                && InUse(old(pageHeap.h), o.start)
                && pageHeap.h == if Releases(c, k) then GiveBack(old(pageHeap.h), o.start) else old(pageHeap.h)
      ensures Untouched(pageHeap.h, pageHeap.spans, old(pageHeap.h), old(pageHeap.spans))
    {
      hide Matches, Held, Placed, Linked, CurrentOf, CflShape, IsList, PageHeap.Valid, FreeCount, Position, GiveBack;
      hide PageHeap.FreeSpans, CflOk, Outstanding, Respects, SpanShape, InSpan, Disjoint, Untouched, FreeOp, Releases;
      pageHeap.ValidFacts();
      UntouchedSame(pageHeap.h, pageHeap.spans);
      if ptr == 0 { return; }
      var span := pageHeap.SpanFor(ptr);
      if span == null { return; }
      Located(ptr, o);
      ghost var k := Position(st.spans, o.start);
      FreeOk(st, k, o.idx);
      PushAndRelease(span, ptr, k, o.idx);
    }

    lemma UnlistPushed(c: Cfl, k: nat, idx: nat)
      requires k < |c.spans|
      ensures Unlist(c.(spans := c.spans[k := Pushed(c.spans[k], idx)]), k) == Unlist(c, k)
    {
    }

    /** Frees a batch one pointer at a time. */
    method DeallocateBatch(ptrs: seq<nat>, ghost batch: seq<Object>)
      requires Valid() && |ptrs| == |batch|
      requires Distinct(batch) && Members(batch) <= Outs(st)
      requires forall i | 0 <= i < |ptrs| :: ptrs[i] != 0 && ptrs[i] == Address(batch[i], size)
      modifies this, objs, ram, pageHeap, pageHeap.freeLists, pageHeap.FreeSpans()
      ensures Valid() && st == FreeAll(old(st), batch) && Pages(pageHeap.h) == Pages(old(pageHeap.h))
      ensures forall s | s in objs :: s in old(objs)
      ensures forall s | s in pageHeap.FreeSpans() :: s in old(pageHeap.FreeSpans()) || s in old(objs) || fresh(s)
      ensures Preserves(Outs(st), old(st), old(ram.words), ram.words)
      ensures Untouched(pageHeap.h, pageHeap.spans, old(pageHeap.h), old(pageHeap.spans))
      ensures SizesStay(old(pageHeap.h), pageHeap.h, size)
    {
      hide Inv, CflOk, FreeOp, Position, Respects, GiveBack, Managed, Pages, Preserves, Listed, Outs, Members, OnPages,
           Untouched, SizesStay;
      SameSizes(pageHeap.h);
      PreservesNothing(Outs(st), st, ram.words);
      HeapIsValid();
      UntouchedSame(pageHeap.h, pageHeap.spans);
      BatchSafe(st, batch);
      assert batch[0..] == batch;
      for i := 0 to |ptrs|
        invariant Valid() && AllOut(st, batch[i..]) && Pages(pageHeap.h) == Pages(old(pageHeap.h))
        invariant FreeAll(st, batch[i..]) == FreeAll(old(st), batch)
        invariant Preserves(Outs(st), old(st), old(ram.words), ram.words)
        invariant forall a: nat | OnPages(st, a) :: OnPages(old(st), a)
        invariant Untouched(pageHeap.h, pageHeap.spans, old(pageHeap.h), old(pageHeap.spans))
        invariant SizesStay(old(pageHeap.h), pageHeap.h, size)
        invariant forall s | s in objs :: s in old(objs)
        invariant forall s | s in pageHeap.FreeSpans() :: s in old(pageHeap.FreeSpans()) || s in old(objs) || fresh(s)
      {
        assert batch[i..][0] == batch[i] && batch[i..][1..] == batch[i + 1..];
        LocatedManaged(ptrs[i], batch[i]);
        assert forall k | 0 <= k < |objs| :: objs[k] in objs;
        HeapIsValid();
        ghost var h0, live0, c, m := pageHeap.h, pageHeap.spans, st, ram.words;
        Deallocate(ptrs[i], batch[i]);
        UntouchedJoin(pageHeap.h, pageHeap.spans, h0, live0, old(pageHeap.h), old(pageHeap.spans));
        SamePages(h0, pageHeap.h, batch[i].start);
        SizesStayJoin(old(pageHeap.h), h0, pageHeap.h, size);
        FreePreserves(old(st), c, Position(c.spans, batch[i].start), batch[i].idx, old(ram.words), m, ram.words);
      }
      assert batch[|ptrs|..] == [];
    }

    /** One more deallocate after others. */
    lemma FreePreserves(c0: Cfl, c: Cfl, k: nat, idx: nat, m0: Memory, m: Memory, m': Memory)
      requires CflOk(c) && k < |c.spans| && Outstanding(c.spans[k], idx) && c.size == c0.size && c.pages == c0.pages
      requires Preserves(Outs(c), c0, m0, m) && Respects(c.(spans := c.spans[k := Pushed(c.spans[k], idx)]), m, m')
      requires forall a: nat | OnPages(c, a) :: OnPages(c0, a)
      ensures Preserves(Outs(FreeOp(c, k, idx)), c0, m0, m')
      ensures forall a: nat | OnPages(FreeOp(c, k, idx), a) :: OnPages(c0, a)
    {
      hide Preserves, Respects, OnPages, Outs, CflOk, FreeOp, SpanShape, ObjectsPerSpan;
      var d := c.(spans := c.spans[k := Pushed(c.spans[k], idx)]);
      FreeOk(c, k, idx);
      PushedOuts(c, k, idx);
      FreeOpSizes(c, k, idx);
      forall start: nat
        ensures Listed(d, start) <==> Listed(c, start)
        ensures Listed(FreeOp(c, k, idx), start) ==> Listed(c, start)
      {
        PositionReplace(c.spans, k, Pushed(c.spans[k], idx), start);
        FreeListed(c, k, idx, start);
      }
      hide Listed;
      PagesByListing(d, c);
      PagesByListing(FreeOp(c, k, idx), c);
      PreservesJoin(Outs(c), c0, Outs(FreeOp(c, k, idx)), c0, d, m0, m, m');
    }

    lemma PushedOuts(c: Cfl, k: nat, idx: nat)
      requires CflOk(c) && k < |c.spans| && Outstanding(c.spans[k], idx)
      ensures Outs(c.(spans := c.spans[k := Pushed(c.spans[k], idx)])) == Outs(c) - iset{Object(c.spans[k].start, idx)}
    {
      OutsReplace(c, k, Pushed(c.spans[k], idx), c.current);
      forall i: nat { OutsOf(c, k, i); }
    }

    lemma FreeOpSizes(c: Cfl, k: nat, idx: nat)
      requires k < |c.spans|
      ensures FreeOp(c, k, idx).size == c.size && FreeOp(c, k, idx).pages == c.pages
    {
    }

    lemma SameSizes(h: Heap)
      ensures SizesStay(h, h, size)
    {
    }

    lemma SamePages(h0: Heap, h: Heap, a: nat)
      requires ValidHeap(h0) && InUse(h0, a) && (h == h0 || h == GiveBack(h0, a))
      ensures Pages(h) == Pages(h0) && (h0[a].size == size ==> SizesStay(h0, h, size))
    {
      GiveBackLaws(h0, a);
    }

    lemma LocatedManaged(ptr: nat, o: Object)
      requires Valid() && o in Outs(st) && ptr == Address(o, size)
      ensures Managed(pageHeap.h, ptr / PAGE_SIZE)
      ensures o.start in pageHeap.h && pageHeap.h[o.start].size == size
    {
      Located(ptr, o);
      HeapFacts();
      assert st.spans[Position(st.spans, o.start)].start == o.start;
    }

    lemma HeapIsValid()
      requires Valid()
      ensures ValidHeap(pageHeap.h) && CflOk(st) && (size > 0 && pages > 0 ==> size < UINT32_MAX)
      ensures pageHeap.h.Keys == pageHeap.spans.Keys && pageHeap.Valid()
      ensures st.size == size && st.pages == pages
    {
    }

    /** One more allocate after others. */
    lemma AllocatePreserves(c: Cfl, got: Option<nat>, m: Memory, m': Memory)
      requires CflOk(c) && (got.Some? ==> Asks(c) && Position(c.spans, got.value) == |c.spans|)
      requires Respects(Ready(c, got), m, m')
      ensures Preserves(Outs(c), AllocateOp(c, got).0, m, m')
      ensures forall a: nat | OnPages(c, a) :: OnPages(AllocateOp(c, got).0, a)
    {
      ReadyOk(c, got);
      forall start: nat
        ensures Listed(c, start) || Listed(Ready(c, got), start) ==> Listed(AllocateOp(c, got).0, start)
      {
        AllocateListed(c, got, start);
      }
      hide Preserves, Respects, OnPages, Outs, CflOk, Listed, AllocateOp, Ready, Asks;
      AllocateListed(c, got, 0);
      PreservesNothing(Outs(c), c, m);
      PagesByListing(c, AllocateOp(c, got).0);
      PagesByListing(Ready(c, got), AllocateOp(c, got).0);
      PreservesJoin(Outs(c), c, Outs(c), AllocateOp(c, got).0, Ready(c, got), m, m, m');
    }

    /** The heap gains at most the pages the OS offered. */
    lemma PagesGained(h0: Heap, got: Option<nat>, os: Option<nat>)
      requires ValidHeap(h0) && (got.None? ==> pageHeap.h == h0)
      requires got.Some? ==> 1 <= pages && size < UINT32_MAX && Served(h0, pageHeap.h, got.value, pages, size, os)
      requires os.Some? ==> FreshPages(h0, os.value, pages)
      ensures Pages(pageHeap.h) <= Pages(h0) + if os.Some? then Range(os.value, pages) else iset{}
    {
      if got.Some? {
        ServedLaws(h0, pageHeap.h, got.value, pages, size, os);
      }
    }

    /** One allocate, as a batch of them needs it. */
    method AllocateOne(os: Option<nat>) returns (ptr: Option<nat>, ghost o: Object)
      requires Valid()
      requires os.Some? ==> FreshPages(pageHeap.h, os.value, pages)
      modifies this, objs, ram, pageHeap, pageHeap.freeLists, pageHeap.FreeSpans()
      ensures Valid()
      ensures ptr.None? ==>
                && Outs(st) == old(Outs(st)) && Starved(st, pageHeap.h, os)
                && forall k | 0 <= k < |st.spans| :: !HasAvailable(st.spans[k])
      ensures ptr.Some? ==> ptr.value == Address(o, size) && o !in old(Outs(st)) && Outs(st) == old(Outs(st)) + iset{o}
      ensures Preserves(old(Outs(st)), st, old(ram.words), ram.words)
      ensures Untouched(old(pageHeap.h), old(pageHeap.spans), pageHeap.h, pageHeap.spans)
      ensures forall a: nat | OnPages(old(st), a) :: OnPages(st, a)
      ensures Pages(pageHeap.h) <= Pages(old(pageHeap.h)) + if os.Some? then Range(os.value, pages) else iset{}
      ensures forall s | s in objs :: s in old(objs) || fresh(s) || s in old(pageHeap.FreeSpans())
      ensures forall s | s in pageHeap.FreeSpans() :: fresh(s) || s in old(pageHeap.FreeSpans())
    {
      hide Inv, CflOk, Position, Respects, Served, AllocateOp, FreshPages, Out, HasAvailable, Chosen, Ready,
           AnyFits, Preserves, Starved, OnPages, Pages, Range, Untouched;
      ghost var c, h0, m, got := st, pageHeap.h, ram.words, None;
      HeapIsValid();
      ptr, got := Allocate(os);
      AllocateOk(c, got);
      AllocatePreserves(c, got, m, ram.words);
      PagesGained(h0, got, os);
      if ptr.None? {
        NothingLeft(c, got);
        AllocateStarved(c, h0, pageHeap.h, got, os);
        o := Object(0, 0);
      } else {
        o := AllocateOp(c, got).1.value;
      }
    }

    /** Pages fresh before and not offered stay fresh. */
    lemma StillFresh(h0: Heap, h: Heap, taken: Option<nat>, other: Option<nat>)
      requires Pages(h) <= Pages(h0) + if taken.Some? then Range(taken.value, pages) else iset{}
      requires other.Some? ==> FreshPages(h0, other.value, pages)
      requires taken.Some? && other.Some? ==> Range(taken.value, pages) !! Range(other.value, pages)
      ensures other.Some? ==> FreshPages(h, other.value, pages)
    {
      if other.Some? {
        forall p: nat | other.value <= p < other.value + pages
          ensures !Managed(h, p)
        {
          assert p in Range(other.value, pages);
          assert p in Pages(h) <==> Managed(h, p);
          assert p in Pages(h0) <==> Managed(h0, p);
        }
      }
    }

    lemma OffersStay(h0: Heap, h: Heap, os: seq<Option<nat>>, n: nat)
      requires n < |os| && Pages(h) <= Pages(h0) + if os[n].Some? then Range(os[n].value, pages) else iset{}
      requires forall i | n <= i < |os| :: os[i].Some? ==> FreshPages(h0, os[i].value, pages)
      requires forall i, j | 0 <= i < j < |os| ::
                 os[i].Some? && os[j].Some? ==> Range(os[i].value, pages) !! Range(os[j].value, pages)
      ensures forall i | n < i < |os| :: os[i].Some? ==> FreshPages(h, os[i].value, pages)
    {
      hide Pages, Range, FreshPages;
      forall i | n < i < |os|
        ensures os[i].Some? ==> FreshPages(h, os[i].value, pages)
      {
        StillFresh(h0, h, os[n], os[i]);
      }
    }

    /** Page 0 stays out of the heap when the OS does not offer it. */
    lemma NoPageZero(h0: Heap, h: Heap, os: Option<nat>)
      requires Pages(h) <= Pages(h0) + if os.Some? then Range(os.value, pages) else iset{}
      ensures !Managed(h0, 0) && os != Some(0) ==> !Managed(h, 0)
    {
      assert 0 in Pages(h) <==> Managed(h, 0);
      assert 0 in Pages(h0) <==> Managed(h0, 0);
    }

    /** One more allocate of a batch that began with objects `outs` out of memory m0 and heap h0. */
    method AllocateMore(os: Option<nat>, ghost outs: iset<Object>, ghost h0: Heap, ghost live0: map<nat, Span>,
                        ghost m0: Memory)
      returns (ptr: Option<nat>, ghost o: Object)
      requires Valid() && outs <= Outs(st) && Preserves(outs, st, m0, ram.words)
      requires Untouched(h0, live0, pageHeap.h, pageHeap.spans)
      requires os.Some? ==> FreshPages(pageHeap.h, os.value, pages)
      modifies this, objs, ram, pageHeap, pageHeap.freeLists, pageHeap.FreeSpans()
      ensures Valid() && Preserves(outs, st, m0, ram.words) && Untouched(h0, live0, pageHeap.h, pageHeap.spans)
      ensures ptr.None? ==>
                && Outs(st) == old(Outs(st)) && Starved(st, pageHeap.h, os)
                && forall k | 0 <= k < |st.spans| :: !HasAvailable(st.spans[k])
      ensures ptr.Some? ==> ptr.value == Address(o, size) && o !in old(Outs(st)) && Outs(st) == old(Outs(st)) + iset{o}
      ensures Pages(pageHeap.h) <= Pages(old(pageHeap.h)) + if os.Some? then Range(os.value, pages) else iset{}
      ensures forall s | s in objs :: s in old(objs) || fresh(s) || s in old(pageHeap.FreeSpans())
      ensures forall s | s in pageHeap.FreeSpans() :: fresh(s) || s in old(pageHeap.FreeSpans())
    {
      hide Valid, FreshPages, HasAvailable, Preserves, Starved, OnPages, Outs, Range, Pages, Address, Untouched;
      ghost var c, h, live, m := st, pageHeap.h, pageHeap.spans, ram.words;
      HeapIsValid();
      ptr, o := AllocateOne(os);
      HeapIsValid();
      UntouchedJoin(h0, live0, h, live, pageHeap.h, pageHeap.spans);
      PreservesBoth(outs, c, Outs(c), st, m0, m, ram.words);
    }

    /** Takes up to `count` objects; `os` is what the OS answers to each request it gets. */
    method AllocateBatch(count: nat, os: seq<Option<nat>>) returns (ptrs: seq<nat>, ghost batch: seq<Object>)
      requires Valid() && |os| == count
      requires forall i | 0 <= i < count :: os[i].Some? ==> FreshPages(pageHeap.h, os[i].value, pages)
      requires forall i, j | 0 <= i < j < count ::
                 os[i].Some? && os[j].Some? ==> Range(os[i].value, pages) !! Range(os[j].value, pages)
      modifies this, objs, ram, pageHeap, pageHeap.freeLists, pageHeap.FreeSpans()
      ensures Valid()
      ensures |ptrs| == |batch| <= count && forall i | 0 <= i < |ptrs| :: ptrs[i] == Address(batch[i], size)
      ensures Distinct(batch) && Members(batch) !! Outs(old(st))
      ensures Outs(st) == Outs(old(st)) + Members(batch)
      ensures |ptrs| < count ==> Starved(st, pageHeap.h, os[|ptrs|])
      ensures |ptrs| < count ==> forall k | 0 <= k < |st.spans| :: !HasAvailable(st.spans[k])
      ensures Preserves(old(Outs(st)), st, old(ram.words), ram.words)
      ensures Untouched(old(pageHeap.h), old(pageHeap.spans), pageHeap.h, pageHeap.spans)
      ensures !Managed(old(pageHeap.h), 0) && (forall i | 0 <= i < count :: os[i] != Some(0)) ==>
          !Managed(pageHeap.h, 0)
      ensures forall s | s in objs :: s in old(objs) || fresh(s) || s in old(pageHeap.FreeSpans())
      ensures forall s | s in pageHeap.FreeSpans() :: s in old(pageHeap.FreeSpans()) || fresh(s)
    {
      hide Valid, FreshPages, HasAvailable, Managed, Preserves, Starved, OnPages, Outs, Members, Distinct, Range,
           Pages, Address, Untouched;
      ptrs, batch := [], [];
      PreservesNothing(Outs(st), st, ram.words);
      EmptyBatch(st);
      HeapIsValid();
      UntouchedSame(pageHeap.h, pageHeap.spans);
      while |ptrs| < count
        invariant Valid() && |ptrs| == |batch| <= count
        invariant forall i | 0 <= i < |ptrs| :: ptrs[i] == Address(batch[i], size)
        invariant Distinct(batch) && Members(batch) !! Outs(old(st))
        invariant Outs(st) == Outs(old(st)) + Members(batch)
        invariant Preserves(old(Outs(st)), st, old(ram.words), ram.words)
        invariant Untouched(old(pageHeap.h), old(pageHeap.spans), pageHeap.h, pageHeap.spans)
        invariant forall i | |ptrs| <= i < count :: os[i].Some? ==> FreshPages(pageHeap.h, os[i].value, pages)
        invariant forall s | s in objs :: s in old(objs) || fresh(s) || s in old(pageHeap.FreeSpans())
        invariant forall s | s in pageHeap.FreeSpans() :: s in old(pageHeap.FreeSpans()) || fresh(s)
        invariant !Managed(old(pageHeap.h), 0) && (forall i | 0 <= i < count :: os[i] != Some(0)) ==>
            !Managed(pageHeap.h, 0)
      {
        ghost var n, h0 := |ptrs|, pageHeap.h;
        assert forall k | 0 <= k < |objs| :: objs[k] in objs;
        var ptr;
        ghost var o;
        ptr, o := AllocateMore(os[|ptrs|], old(Outs(st)), old(pageHeap.h), old(pageHeap.spans), old(ram.words));
        NoPageZero(h0, pageHeap.h, os[n]);
        if ptr.None? { return; }
        OffersStay(h0, pageHeap.h, os, n);
        BatchGrows(batch, o);
        ptrs := ptrs + [ptr.value];
        batch := batch + [o];
      }
    }

    // ---- beside other lists ----

    /** Two lists of different sizes over the same page heap and memory. */
    ghost predicate Beside(o: CentralFreeList)
    {
      pageHeap == o.pageHeap && ram == o.ram && size != o.size
    }

    /** Lists of different sizes have no span object in common, nor one with the page heap. */
    lemma NothingShared(o: CentralFreeList)
      requires Valid() && o.Valid() && Beside(o)
      ensures forall s | s in objs :: s !in o.objs && s !in pageHeap.FreeSpans()
    {
      hide Held, Linked, CurrentOf, CflShape, CflOk, FreeCount, PageHeap.Valid;
      Apart();
      forall j, k | 0 <= j < |objs| && 0 <= k < |o.objs|
        ensures objs[j] != o.objs[k]
      {
        assert objs[j].start == st.spans[j].start && o.objs[k].start == o.st.spans[k].start;
      }
    }

    lemma InPlace()
      requires Valid()
      ensures Placed(st, objs, pageHeap.h, pageHeap.spans)
    {
    }

    lemma NodeSized()
      requires Configured() && CflShape(st)
      ensures st.spans != [] ==> size >= NODE_SIZE
    {
    }

    lemma HeldBeside(c: Cfl, d: Cfl, h: Heap, m: Memory, m': Memory)
      requires CflShape(c) && CflShape(d) && Disjoint(h) && SpansInUse(c, h) && SpansInUse(d, h) && d.size != c.size
      requires Respects(d, m, m') && c.size == size && (c.spans != [] ==> size >= NODE_SIZE)
      requires Held(c, objs, m, size)
      ensures Held(c, objs, m', size)
    {
      hide CflShape, SpansInUse, Disjoint, Respects, IsList;
      forall k | 0 <= k < |objs|
        ensures IsList(m', Base(c.spans[k]), size, objs[k].freelistHead, c.spans[k].free)
      {
        OtherSizesKept(c, d, h, m, m', k, size, objs[k].freelistHead);
      }
    }

    /** Whoever holds objects of list `d`, this one or one of another size, may write into them. */
    lemma HeldUnderCallers(d: Cfl, m': Memory)
      requires Valid() && CflShape(d) && SpansInUse(d, pageHeap.h) && (d == st || d.size != size)
      requires CallersWrite(d, ram.words, m')
      ensures Held(st, objs, m', size)
    {
      hide CflShape, SpansInUse, CallersWrite, IsList, PageHeap.Valid, Matches, Linked, CurrentOf;
      pageHeap.ValidFacts();
      NodeSized();
      forall k | 0 <= k < |objs|
        ensures IsList(m', Base(st.spans[k]), size, objs[k].freelistHead, st.spans[k].free)
      {
        CallersHarmless(st, d, pageHeap.h, ram.words, m', k, size, objs[k].freelistHead);
      }
    }

    /** Nothing but memory has changed, and the packed lists hold. */
    twostate lemma StillHeld()
      requires old(Valid()) && unchanged(this) && unchanged(pageHeap) && Held(st, objs, ram.words, size)
      requires pageHeap.Valid() && forall s | s in objs :: s.Same()
      ensures Valid()
    {
      assert forall k | 0 <= k < |objs| :: objs[k] in objs && objs[k].Same();
    }

    /** What another list writes and asks of the page heap leaves this list valid: `d` is the other
        list while it writes. */
    twostate lemma Undisturbed(d: Cfl)
      requires old(Valid()) && unchanged(this) && pageHeap.Valid() && forall s | s in objs :: s.Same()
      requires Placed(st, objs, pageHeap.h, pageHeap.spans)
      requires CflShape(d) && d.size != size && (SpansInUse(d, pageHeap.h) || SpansInUse(d, old(pageHeap.h)))
      requires Respects(d, old(ram.words), ram.words) && Disjoint(old(pageHeap.h))
      ensures Valid()
    {
      hide CurrentOf, CflShape, FreeCount, Respects, SpansInUse, PageHeap.Valid, IsList;
      assert forall k | 0 <= k < |objs| :: objs[k] in objs && objs[k].Same();
      pageHeap.ValidFacts();
      NodeSized();
      if SpansInUse(d, pageHeap.h) {
        HeldBeside(st, d, pageHeap.h, old(ram.words), ram.words);
      } else {
        HeldBeside(st, d, old(pageHeap.h), old(ram.words), ram.words);
      }
    }
  }
}
