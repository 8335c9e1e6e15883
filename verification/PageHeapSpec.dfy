/** The page heap as a value: live spans keyed by their first page, and what
    allocating and returning a span do to that value. */
module PageHeapSpec {
  import opened Widths

  /** `size` is the object size a central free list carves the span into; 0 while free. */
  datatype SpanInfo = SpanInfo(pages: nat, size: nat, free: bool)

  type Heap = map<nat, SpanInfo>

  ghost predicate InSpan(h: Heap, a: nat, p: nat) {
    a in h && a <= p < a + h[a].pages
  }

  ghost predicate Managed(h: Heap, p: nat) {
    exists a :: InSpan(h, a, p)
  }

  ghost predicate Within(p: nat, a: nat, n: nat) {
    a <= p < a + n
  }

  ghost function Range(a: nat, n: nat): iset<nat> {
    iset p: nat | Within(p, a, n)
  }

  /** The managed pages. */
  ghost function Pages(h: Heap): iset<nat> {
    iset p: nat | Managed(h, p)
  }

  /** No page lies in two spans. */
  ghost predicate Disjoint(h: Heap) {
    forall a, b, p | InSpan(h, a, p) && InSpan(h, b, p) :: a == b
  }

  ghost predicate Sized(h: Heap) {
    forall a | a in h :: 1 <= h[a].pages <= MAX_PAGES && (h[a].free ==> h[a].size == 0)
  }

  /** Sized, but for the span at `a`. */
  ghost predicate SizedBut(h: Heap, a: nat) {
    forall b | b in h && b != a :: 1 <= h[b].pages <= MAX_PAGES && (h[b].free ==> h[b].size == 0)
  }

  ghost predicate ValidHeap(h: Heap) {
    Disjoint(h) && Sized(h)
  }

  ghost predicate InUse(h: Heap, a: nat) {
    a in h && !h[a].free
  }

  // ---- allocation ----

  ghost predicate Fits(h: Heap, a: nat, n: nat) {
    a in h && h[a].free && n <= h[a].pages
  }

  ghost predicate AnyFits(h: Heap, n: nat) {
    exists a: nat :: Fits(h, a, n)
  }

  /** The free span least in (pages, start) among those long enough. */
  ghost predicate BestFit(h: Heap, a: nat, n: nat) {
    Fits(h, a, n) &&
    forall b | Fits(h, b, n) :: h[a].pages < h[b].pages || (h[a].pages == h[b].pages && a <= b)
  }

  /** Takes the free span at `a`, keeps `n` pages and frees the remainder. */
  ghost function TakeSpan(h: Heap, a: nat, n: nat, size: nat): Heap
    requires Fits(h, a, n)
  {
    var taken := h[a := SpanInfo(n, size, false)];
    if n < h[a].pages then taken[a + n := SpanInfo(h[a].pages - n, 0, true)] else taken
  }

  ghost predicate FreshPages(h: Heap, a: nat, n: nat) {
    forall p | a <= p < a + n :: !Managed(h, p)
  }

  // ---- returning ----

  ghost predicate FreeEndingAt(h: Heap, l: nat, a: nat) {
    l in h && h[l].free && l + h[l].pages == a
  }

  /** First page of the merged range: the free left neighbour's, if there is one. */
  ghost function LeftEdge(h: Heap, a: nat): nat {
    if exists l: nat :: FreeEndingAt(h, l, a) then
      var l: nat :| FreeEndingAt(h, l, a); l
    else a
  }

  /** End of the merged range: past the free right neighbour, if there is one. */
  ghost function RightEdge(h: Heap, e: nat): nat {
    if e in h && h[e].free then e + h[e].pages else e
  }

  /** Frees `n` pages from `lo` as chunks of MAX_PAGES and one last chunk. */
  ghost function Carve(h: Heap, lo: nat, n: nat): Heap
    decreases n
  {
    if n <= MAX_PAGES then h[lo := SpanInfo(n, 0, true)]
    else Carve(h[lo := SpanInfo(MAX_PAGES, 0, true)], lo + MAX_PAGES, n - MAX_PAGES)
  }

  /** The heap without the returned span and without the neighbours it merges with. */
  ghost function Detach(h: Heap, a: nat): Heap
    requires a in h
  {
    var e := a + h[a].pages;
    h - {LeftEdge(h, a), a} - (if RightEdge(h, e) != e then {e} else {})
  }

  ghost function GiveBack(h: Heap, a: nat): Heap
    requires a in h
  {
    var lo := LeftEdge(h, a);
    Carve(Detach(h, a), lo, RightEdge(h, a + h[a].pages) - lo)
  }

  lemma DisjointAdd(h: Heap, a: nat, info: SpanInfo)
    requires Disjoint(h) && a !in h && FreshPages(h, a, info.pages)
    ensures Disjoint(h[a := info])
  {
    var h' := h[a := info];
    forall x, y, p | InSpan(h', x, p) && InSpan(h', y, p)
      ensures x == y
    {
      assert x != a ==> InSpan(h, x, p) && Managed(h, p);
      assert y != a ==> InSpan(h, y, p) && Managed(h, p);
    }
  }

  lemma DisjointRemove(h: Heap, a: nat)
    requires Disjoint(h) && a in h
    ensures Disjoint(h - {a}) && FreshPages(h - {a}, a, h[a].pages)
  {
    var h' := h - {a};
    assert forall x, p | InSpan(h', x, p) :: InSpan(h, x, p);
    forall p | a <= p < a + h[a].pages
      ensures !Managed(h', p)
    {
      assert InSpan(h, a, p);
    }
  }

  lemma FreshPart(h: Heap, a: nat, n: nat, b: nat, m: nat)
    requires FreshPages(h, a, n) && a <= b && b + m <= a + n
    ensures FreshPages(h, b, m)
  {
  }

  /** Pages stay fresh when a span elsewhere becomes live. */
  lemma FreshAdd(h: Heap, a: nat, n: nat, b: nat, info: SpanInfo)
    requires FreshPages(h, a, n) && b !in h
    requires b + info.pages <= a || a + n <= b
    ensures FreshPages(h[b := info], a, n)
  {
    var h' := h[b := info];
    forall x: nat, p: nat | InSpan(h', x, p) && x != b
      ensures Managed(h, p)
    {
      assert InSpan(h, x, p);
    }
  }

  /** A span without a page in common with fresh pages does not start among them. */
  lemma FreshStart(h: Heap, a: nat, n: nat)
    requires FreshPages(h, a, n) && n >= 1
    ensures a in h ==> h[a].pages == 0
  {
    assert a in h && h[a].pages >= 1 ==> InSpan(h, a, a) && Managed(h, a);
  }

  /** Shrinking a span leaves its tail fresh. */
  lemma RemainderFresh(h: Heap, a: nat, n: nat)
    requires Disjoint(h) && a in h && 1 <= n < h[a].pages
    ensures FreshPages(h - {a}, a, n)
    ensures FreshPages(h[a := h[a].(pages := n)], a + n, h[a].pages - n)
    ensures a + n in h ==> h[a + n].pages == 0
  {
    DisjointRemove(h, a);
    FreshPart(h - {a}, a, h[a].pages, a, n);
    FreshPart(h - {a}, a, h[a].pages, a + n, h[a].pages - n);
    FreshAdd(h - {a}, a + n, h[a].pages - n, a, h[a].(pages := n));
    FreshStart(h - {a}, a + n, h[a].pages - n);
    assert (h - {a})[a := h[a].(pages := n)] == h[a := h[a].(pages := n)];
  }

  /** Two adjacent spans cover fresh pages once both are gone. */
  lemma MergeFresh(h: Heap, l: nat, a: nat)
    requires Disjoint(h) && l in h && a in h && l != a && l + h[l].pages == a
    ensures FreshPages(h - {l, a}, l, h[l].pages + h[a].pages)
  {
    var h' := h - {l, a};
    forall x: nat, p: nat | InSpan(h', x, p) && l <= p < l + h[l].pages + h[a].pages
      ensures false
    {
      assert InSpan(h, x, p);
      assert InSpan(h, if p < a then l else a, p);
    }
  }

  /** Merging left first does not change what merging right does. */
  lemma MergeBoth(h: Heap, a: nat)
    requires a in h && LeftEdge(h, a) <= a && h[a].pages >= 1 && h[a] == SpanInfo(h[a].pages, 0, true)
    ensures var lo, e := LeftEdge(h, a), a + h[a].pages;
            var h1 := if lo == a then h else (h - {lo, a})[lo := SpanInfo(e - lo, 0, true)];
            var hi := RightEdge(h, e);
            && RightEdge(h1, e) == hi
            && (if hi == e then h1 else (h1 - {e})[lo := SpanInfo(hi - lo, 0, true)])
               == Detach(h, a)[lo := SpanInfo(hi - lo, 0, true)]
  {
  }

  lemma LeftEdgeUnique(h: Heap, l: nat, a: nat)
    requires Disjoint(h) && FreeEndingAt(h, l, a) && h[l].pages >= 1
    requires forall x | x in h :: h[x].pages >= 1
    ensures LeftEdge(h, a) == l < a
  {
    forall x: nat | FreeEndingAt(h, x, a)
      ensures x == l
    {
      assert InSpan(h, x, a - 1) && InSpan(h, l, a - 1);
    }
  }

  /** What a span merges with does not depend on its own flags. */
  lemma MarkedEdges(h: Heap, a: nat)
    requires Disjoint(h) && a in h && forall x | x in h :: h[x].pages >= 1
    ensures var h' := h[a := SpanInfo(h[a].pages, 0, true)];
            && LeftEdge(h', a) == LeftEdge(h, a)
            && RightEdge(h', a + h[a].pages) == RightEdge(h, a + h[a].pages)
            && Detach(h', a) == Detach(h, a)
  {
    var h' := h[a := SpanInfo(h[a].pages, 0, true)];
    assert forall x, p :: InSpan(h', x, p) <==> InSpan(h, x, p);
    assert forall l :: FreeEndingAt(h', l, a) <==> FreeEndingAt(h, l, a);
    if l: nat :| FreeEndingAt(h, l, a) {
      LeftEdgeUnique(h, l, a);
      LeftEdgeUnique(h', l, a);
    }
  }

  /** One round of carving. */
  lemma CarveStep(h: Heap, a: nat)
    requires Disjoint(h) && a in h && h[a].pages > MAX_PAGES
    requires forall x | x in h :: h[x].pages >= 1
    ensures var h1 := (h - {a})[a + MAX_PAGES := SpanInfo(h[a].pages - MAX_PAGES, 0, true)];
            var h2 := h1[a := SpanInfo(MAX_PAGES, 0, true)];
            && FreshPages(h - {a}, a + MAX_PAGES, h[a].pages - MAX_PAGES)
            && FreshPages(h1, a, MAX_PAGES)
            && Carve(h2 - {a + MAX_PAGES}, a + MAX_PAGES, h[a].pages - MAX_PAGES)
               == Carve(h - {a}, a, h[a].pages)
  {
    var n := h[a].pages;
    var h1 := (h - {a})[a + MAX_PAGES := SpanInfo(n - MAX_PAGES, 0, true)];
    var h2 := h1[a := SpanInfo(MAX_PAGES, 0, true)];
    DisjointRemove(h, a);
    FreshPart(h - {a}, a, n, a, MAX_PAGES);
    FreshPart(h - {a}, a, n, a + MAX_PAGES, n - MAX_PAGES);
    FreshStart(h - {a}, a + MAX_PAGES, n - MAX_PAGES);
    FreshAdd(h - {a}, a, MAX_PAGES, a + MAX_PAGES, SpanInfo(n - MAX_PAGES, 0, true));
    assert h2 - {a + MAX_PAGES} == (h - {a})[a := SpanInfo(MAX_PAGES, 0, true)];
  }

  lemma GiveBackSized(h: Heap, a: nat)
    requires ValidHeap(h) && InUse(h, a)
    ensures RightEdge(h, a + h[a].pages) - LeftEdge(h, a) <= 3 * MAX_PAGES
  {
  }

  /** Carving starts from the merged span. */
  lemma CarveFirst(h: Heap, a: nat, merged: Heap)
    requires a in h
    requires var lo := LeftEdge(h, a);
             merged == Detach(h, a)[lo := SpanInfo(RightEdge(h, a + h[a].pages) - lo, 0, true)]
    ensures Carve(merged - {LeftEdge(h, a)}, LeftEdge(h, a), merged[LeftEdge(h, a)].pages) == GiveBack(h, a)
  {
    var lo := LeftEdge(h, a);
    assert merged - {lo} == Detach(h, a);
  }

  /** Carving ends when the rest fits a bucket. */
  lemma CarveLast(h: Heap, s: nat)
    requires s in h && h[s] == SpanInfo(h[s].pages, 0, true) && h[s].pages <= MAX_PAGES
    ensures Carve(h - {s}, s, h[s].pages) == h
  {
    assert (h - {s})[s := h[s]] == h;
  }

  lemma TakeSized(h: Heap, a: nat, n: nat, size: nat)
    requires Sized(h) && Fits(h, a, n) && n >= 1
    ensures Sized(TakeSpan(h, a, n, size))
  {
  }

  /** Taking a span is claiming all of it and splitting it. */
  lemma TakeSteps(h: Heap, a: nat, n: nat, size: nat)
    requires Fits(h, a, n)
    ensures var h1 := h[a := SpanInfo(h[a].pages, size, false)];
            var h2 := h1[a := h1[a].(pages := n)][a + n := SpanInfo(h1[a].pages - n, 0, true)];
            TakeSpan(h, a, n, size) == if n < h[a].pages then h2 else h1
  {
  }

  /** Every bucket below i is too short, and `a` leads bucket i. */
  lemma LeastIsBest(h: Heap, a: nat, n: nat, i: nat)
    requires Fits(h, a, n) && h[a].pages == i
    requires forall b: nat | Fits(h, b, n) :: i <= h[b].pages
    requires forall b: nat | Fits(h, b, n) && h[b].pages == i :: a <= b
    ensures BestFit(h, a, n)
  {
  }

  lemma SizedFacts(h: Heap)
    requires Sized(h)
    ensures forall a | a in h :: 1 <= h[a].pages <= MAX_PAGES
  {
  }

  lemma SizedAdd(h: Heap, a: nat, info: SpanInfo)
    requires Sized(h) && 1 <= info.pages <= MAX_PAGES && !info.free
    ensures Sized(h[a := info])
  {
  }

  /** allocate_span found pages at `a`: the best fitting free span, else fresh ones from the OS. */
  ghost predicate Served(h0: Heap, h: Heap, a: nat, n: nat, size: nat, os: Option<nat>) {
    if AnyFits(h0, n) then BestFit(h0, a, n) && h == TakeSpan(h0, a, n, size)
    else os == Some(a) && h == h0[a := SpanInfo(n, size, false)]
  }
}
