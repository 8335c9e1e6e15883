/** A central free list as a value (central_free_list.hpp): its spans in list order, each with a
    plain stack of free indices, and what allocating and deallocating do to it. */
module CflSpec {
  import opened Sequences
  import opened Widths
  import opened PackedLists

  /** `carved` is next_uninitialized: objects carved .. total-1 have never been handed out. */
  datatype SpanState = SpanState(start: nat, total: nat, carved: nat, free: seq<nat>)

  datatype Cfl = Cfl(size: nat, pages: nat, spans: seq<SpanState>, current: Option<nat>)

  /** An object, by the first page of its span and its index there. */
  datatype Object = Object(start: nat, idx: nat)

  function Address(o: Object, size: nat): nat {
    IndexToPtr(o.idx, o.start * PAGE_SIZE, size)
  }

  function Base(sp: SpanState): nat {
    sp.start * PAGE_SIZE
  }

  /** Objects carved from a span of `pages` pages: none when one object is longer than the span. */
  function ObjectsPerSpan(size: nat, pages: nat): nat
    requires size > 0
  {
    pages * PAGE_SIZE / size
  }

  predicate HasAvailable(sp: SpanState) {
    sp.free != [] || sp.carved < sp.total
  }

  // ---- invariant ----

  ghost predicate SpanShape(sp: SpanState) {
    && sp.carved <= sp.total
    && Distinct(sp.free)
    && (forall i | i in sp.free :: i < sp.carved)
  }

  /** A span that can hold objects is not fully free: it would have been released. */
  ghost predicate SpanOk(sp: SpanState) {
    SpanShape(sp) && (sp.total > 0 ==> |sp.free| < sp.total)
  }

  ghost predicate CflShape(c: Cfl) {
    && (c.spans != [] ==> c.size > 0 && c.pages > 0)
    && (forall k | 0 <= k < |c.spans| :: SpanShape(c.spans[k]) && c.spans[k].total == ObjectsPerSpan(c.size, c.pages))
    && (forall j, k | 0 <= j < k < |c.spans| :: c.spans[j].start != c.spans[k].start)
    && (c.current.Some? ==> Position(c.spans, c.current.value) < |c.spans|)
  }

  /** What holds whenever the list's lock is free. */
  ghost predicate CflOk(c: Cfl) {
    CflShape(c) && forall k | 0 <= k < |c.spans| :: SpanOk(c.spans[k])
  }

  /** Object `idx` of the span has been handed out and not freed. */
  ghost predicate Outstanding(sp: SpanState, idx: nat) {
    idx < sp.carved && idx !in sp.free
  }

  /** All objects handed out and not freed. */
  ghost predicate Out(c: Cfl, o: Object) {
    exists k :: 0 <= k < |c.spans| && c.spans[k].start == o.start && Outstanding(c.spans[k], o.idx)
  }

  ghost function Outs(c: Cfl): iset<Object> {
    iset o | Out(c, o)
  }

  // ---- lookups ----

  /** The first position of a span with this start, or |spans|. */
  function Position(spans: seq<SpanState>, start: nat): (k: nat)
    ensures k <= |spans|
    ensures k < |spans| ==> spans[k].start == start
    ensures forall j | 0 <= j < k :: spans[j].start != start
  {
    if spans == [] then 0
    else if spans[0].start == start then 0
    else 1 + Position(spans[1..], start)
  }

  /** The first position of a span with an object to give, or |spans|. */
  function FirstAvailable(spans: seq<SpanState>): (k: nat)
    ensures k <= |spans|
    ensures k < |spans| ==> HasAvailable(spans[k])
    ensures forall j | 0 <= j < k :: !HasAvailable(spans[j])
  {
    if spans == [] then 0
    else if HasAvailable(spans[0]) then 0
    else 1 + FirstAvailable(spans[1..])
  }

  /** The span the next object comes from: the current one while it has any, else the first that has. */
  function Chosen(c: Cfl): Option<nat> {
    var p := if c.current.Some? then Position(c.spans, c.current.value) else |c.spans|;
    var k := FirstAvailable(c.spans);
    if p < |c.spans| && HasAvailable(c.spans[p]) then c.current
    else if k < |c.spans| then Some(c.spans[k].start)
    else None
  }

  // ---- allocation ----

  function ChunkEnd(sp: SpanState, size: nat): nat
    requires size > 0
  {
    var chunk := if PAGE_SIZE / size > 1 then PAGE_SIZE / size else 1;
    if sp.carved + chunk < sp.total then sp.carved + chunk else sp.total
  }

  /** Carves the next chunk onto the free stack. */
  ghost function Populate(sp: SpanState, size: nat): SpanState
    requires size > 0
  {
    if sp.carved >= sp.total then sp
    else
      var end := ChunkEnd(sp, size);
      sp.(free := Down(sp.carved, end) + sp.free, carved := end)
  }

  /** The list after a fetched span joined it. */
  function Fetch(c: Cfl, start: nat): Cfl
    requires c.size > 0
  {
    c.(spans := [SpanState(start, ObjectsPerSpan(c.size, c.pages), 0, [])] + c.spans, current := Some(start))
  }

  /** Takes the top object of span k, carving first when its stack is empty. */
  ghost function TakeFrom(c: Cfl, k: nat): (Cfl, Option<Object>)
    requires k < |c.spans| && c.size > 0
  {
    var sp := if c.spans[k].free == [] then Populate(c.spans[k], c.size) else c.spans[k];
    if sp.free == [] then (c.(spans := c.spans[k := sp]), None)
    else
      (c.(spans := c.spans[k := sp.(free := sp.free[1..])]), Some(Object(sp.start, sp.free[0])))
  }

  /** Whether allocating has to ask the page heap. */
  predicate Asks(c: Cfl) {
    Chosen(c).None? && c.size > 0 && c.pages > 0
  }

  /** The list just before an object is taken; `got` is the span the page heap gave, when asked. */
  function Ready(c: Cfl, got: Option<nat>): Cfl
    requires got.Some? ==> c.size > 0
  {
    var c1 := c.(current := Chosen(c));
    if c1.current.None? && got.Some? then Fetch(c1, got.value) else c1
  }

  ghost function AllocateOp(c: Cfl, got: Option<nat>): (Cfl, Option<Object>)
    requires CflOk(c) && (got.Some? ==> c.size > 0 && c.pages > 0)
  {
    var c2 := Ready(c, got);
    if c2.current.None? then (c2, None) else TakeFrom(c2, Position(c2.spans, c2.current.value))
  }

  // ---- deallocation ----

  /** Takes span k off the list. */
  function Unlist(c: Cfl, k: nat): Cfl
    requires k < |c.spans|
  {
    Cfl(c.size, c.pages, c.spans[..k] + c.spans[k + 1..],
        if c.current == Some(c.spans[k].start) then None else c.current)
  }

  function Pushed(sp: SpanState, idx: nat): SpanState {
    sp.(free := [idx] + sp.free)
  }

  /** Frees object `idx` of span k; the span leaves the list once all its objects are back. */
  ghost function FreeOp(c: Cfl, k: nat, idx: nat): Cfl
    requires k < |c.spans|
  {
    if Releases(c, k) then Unlist(c, k) else c.(spans := c.spans[k := Pushed(c.spans[k], idx)])
  }

  ghost predicate Releases(c: Cfl, k: nat)
    requires k < |c.spans|
  {
    |c.spans[k].free| + 1 == c.spans[k].total
  }

  function FreeCount(spans: seq<SpanState>): nat {
    if spans == [] then 0 else |spans[0].free| + FreeCount(spans[1..])
  }
}
