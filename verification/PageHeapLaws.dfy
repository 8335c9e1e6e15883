/** Laws of the page heap: tiling, conservation of pages, best fit and coalescing, over single
    calls and over whole runs. */
module PageHeapLaws {
  import opened Widths
  import opened PageHeapSpec

  // ---- carving ----

  /** The chunks tile [lo, lo + n): free, of MAX_PAGES each but the last, beside the untouched rest. */
  lemma {:induction false} CarveTiles(h: Heap, lo: nat, n: nat)
    requires Disjoint(h) && n >= 1 && FreshPages(h, lo, n)
    requires forall x | x in h :: h[x].pages >= 1
    ensures var h' := Carve(h, lo, n);
            && Disjoint(h') && lo in h'
            && (forall x | x in h :: x in h' && h'[x] == h[x] && (x + h[x].pages <= lo || lo + n <= x))
            && (forall x | x in h' && x !in h ::
                 && lo <= x && x + h'[x].pages <= lo + n
                 && h'[x].free && h'[x].size == 0 && 1 <= h'[x].pages <= MAX_PAGES
                 && (h'[x].pages == MAX_PAGES || x + h'[x].pages == lo + n))
            && Pages(h') == Pages(h) + Range(lo, n)
    decreases n
  {
    hide Managed, InSpan, Disjoint;
    FreshApart(h, lo, n);
    var m := if n <= MAX_PAGES then n else MAX_PAGES;
    var info := SpanInfo(m, 0, true);
    FreshPart(h, lo, n, lo, m);
    DisjointAdd(h, lo, info);
    PagesAdd(h, lo, info);
    if n > MAX_PAGES {
      FreshPart(h, lo, n, lo + m, n - m);
      FreshAdd(h, lo + m, n - m, lo, info);
      CarveTiles(h[lo := info], lo + m, n - m);
    }
  }

  lemma FreshApart(h: Heap, lo: nat, n: nat)
    requires n >= 1 && FreshPages(h, lo, n) && forall x | x in h :: h[x].pages >= 1
    ensures lo !in h
    ensures forall x | x in h :: x + h[x].pages <= lo || lo + n <= x
  {
    forall x | x in h
      ensures x + h[x].pages <= lo || lo + n <= x
    {
      var p := if lo < x then x else lo;
      assert x <= p < x + h[x].pages ==> InSpan(h, x, p) && Managed(h, p);
    }
  }

  lemma PagesAdd(h: Heap, a: nat, info: SpanInfo)
    requires a !in h
    ensures Pages(h[a := info]) == Pages(h) + Range(a, info.pages)
  {
    var h' := h[a := info];
    forall p: nat
      ensures p in Pages(h') <==> p in Pages(h) + Range(a, info.pages)
    {
      if x: nat :| InSpan(h, x, p) {
        assert InSpan(h', x, p);
      }
      if Within(p, a, info.pages) {
        assert InSpan(h', a, p);
      }
      if x: nat :| InSpan(h', x, p) {
        assert x != a ==> InSpan(h, x, p);
      }
    }
  }

  // ---- returning a span ----

  /** The merged range: what is detached is exactly its pages, and nothing else is. */
  lemma MergedRange(h: Heap, a: nat)
    requires ValidHeap(h) && InUse(h, a)
    ensures var d, lo, hi := Detach(h, a), LeftEdge(h, a), RightEdge(h, a + h[a].pages);
            && lo <= a && a + h[a].pages <= hi && Disjoint(d) && FreshPages(d, lo, hi - lo)
            && Pages(h) == Pages(d) + Range(lo, hi - lo)
            && (forall x | x in d :: x in h && d[x] == h[x] && x != a)
            && (forall x | x in h && x !in d && x != a :: h[x].free && (x == lo || x + h[x].pages == hi))
  {
    var lo, e := LeftEdge(h, a), a + h[a].pages;
    var hi, d := RightEdge(h, e), Detach(h, a);
    assert forall x, p | InSpan(d, x, p) :: InSpan(h, x, p);
    forall p: nat | Within(p, lo, hi - lo)
      ensures !Managed(d, p) && Managed(h, p)
    {
      var x := if p < a then lo else if p < e then a else e;
      assert InSpan(h, x, p);
    }
    forall p: nat | Managed(h, p) && !Within(p, lo, hi - lo)
      ensures Managed(d, p)
    {
      var x: nat :| InSpan(h, x, p);
      assert InSpan(d, x, p);
    }
    assert forall p | p in Pages(d) :: p in Pages(h);
  }

  /** Returning an in-use span frees exactly it: pages are conserved, every other in-use span
      keeps its start, length and size, and the heap stays a valid tiling. */
  lemma GiveBackLaws(h: Heap, a: nat)
    requires ValidHeap(h) && InUse(h, a)
    ensures ValidHeap(GiveBack(h, a))
    ensures Pages(GiveBack(h, a)) == Pages(h)
    ensures forall x :: InUse(GiveBack(h, a), x) <==> InUse(h, x) && x != a
    ensures forall x | InUse(h, x) && x != a :: x in GiveBack(h, a) && GiveBack(h, a)[x] == h[x]
  {
    MergedRange(h, a);
    var lo := LeftEdge(h, a);
    CarveTiles(Detach(h, a), lo, RightEdge(h, a + h[a].pages) - lo);
  }

  // ---- adjacent free spans ----

  ghost predicate FreePair(h: Heap, x: nat, y: nat) {
    x in h && y in h && h[x].free && h[y].free && x + h[x].pages == y
  }

  ghost predicate NoFreePairs(h: Heap) {
    forall x, y :: !FreePair(h, x, y)
  }

  /** A span with no free left neighbour, or no free right neighbour, has none at that edge. */
  lemma EdgesExact(h: Heap, a: nat)
    requires ValidHeap(h) && a in h
    ensures var e := a + h[a].pages;
            && (LeftEdge(h, a) == a ==> forall l: nat :: !FreeEndingAt(h, l, a))
            && (RightEdge(h, e) == e ==> e in h ==> !h[e].free)
  {
  }

  /** A free span ending where the merged range begins had the merged left neighbour beside it. */
  lemma BesideLeft(h: Heap, a: nat, x: nat)
    requires ValidHeap(h) && InUse(h, a)
    requires x in h && x != a && h[x].free && x + h[x].pages == LeftEdge(h, a)
    ensures FreePair(h, x, LeftEdge(h, a))
  {
    EdgesExact(h, a);
    assert x + h[x].pages == a ==> FreeEndingAt(h, x, a);
  }

  /** A free span beginning where the merged range ends had the merged right neighbour beside it. */
  lemma BesideRight(h: Heap, a: nat, y: nat)
    requires ValidHeap(h) && InUse(h, a)
    requires y in h && h[y].free && y == RightEdge(h, a + h[a].pages)
    ensures FreePair(h, a + h[a].pages, y)
  {
    EdgesExact(h, a);
  }

  /** Adjacent free spans after a return lie in the range it merged, or stem from a pair
      that was there before. */
  lemma GiveBackPairs(h: Heap, a: nat)
    requires ValidHeap(h) && InUse(h, a)
    ensures var d, lo, e := Detach(h, a), LeftEdge(h, a), a + h[a].pages;
            forall x: nat, y: nat | FreePair(GiveBack(h, a), x, y) ::
              || (lo <= x && y < RightEdge(h, e))
              || FreePair(h, if x in d then x else e, if y in d then y else lo)
  {
    MergedRange(h, a);
    var d, lo, e := Detach(h, a), LeftEdge(h, a), a + h[a].pages;
    var hi := RightEdge(h, e);
    CarveTiles(d, lo, hi - lo);
    hide Detach, LeftEdge, RightEdge, Carve;
    forall x: nat, y: nat | FreePair(GiveBack(h, a), x, y) && !(lo <= x && y < hi)
      ensures FreePair(h, if x in d then x else e, if y in d then y else lo)
    {
      if x in d && y !in d { BesideLeft(h, a, x); }
      if x !in d && y in d { BesideRight(h, a, y); }
    }
  }

  /** A pair that was there before survives, possibly with a merged member. */
  lemma GiveBackKeepsPair(h: Heap, a: nat, x: nat, y: nat)
    requires ValidHeap(h) && InUse(h, a) && FreePair(h, x, y)
    requires RightEdge(h, a + h[a].pages) - LeftEdge(h, a) <= MAX_PAGES
    ensures !NoFreePairs(GiveBack(h, a))
  {
    MergedRange(h, a);
    var lo, h' := LeftEdge(h, a), GiveBack(h, a);
    CarveTiles(Detach(h, a), lo, RightEdge(h, a + h[a].pages) - lo);
    if x in Detach(h, a) {
      assert FreePair(h', x, if y in Detach(h, a) then y else lo);
    } else {
      assert FreePair(h', lo, y);
    }
  }

  /** A return leaves no two free spans adjacent exactly when there were none and the merged
      range fits one bucket. */
  lemma GiveBackCoalesces(h: Heap, a: nat)
    requires ValidHeap(h) && InUse(h, a)
    ensures NoFreePairs(GiveBack(h, a)) <==>
            NoFreePairs(h) && RightEdge(h, a + h[a].pages) - LeftEdge(h, a) <= MAX_PAGES
  {
    MergedRange(h, a);
    var lo, n := LeftEdge(h, a), RightEdge(h, a + h[a].pages) - LeftEdge(h, a);
    if n > MAX_PAGES {
      CarvedPair(Detach(h, a), lo, n);
    } else if NoFreePairs(h) {
      GiveBackPairs(h, a);
      CarveTiles(Detach(h, a), lo, n);
    } else {
      var x: nat, y: nat :| FreePair(h, x, y);
      GiveBackKeepsPair(h, a, x, y);
    }
  }

  lemma CarvedPair(h: Heap, lo: nat, n: nat)
    requires Disjoint(h) && n > MAX_PAGES && FreshPages(h, lo, n)
    requires forall x | x in h :: h[x].pages >= 1
    ensures FreePair(Carve(h, lo, n), lo, lo + MAX_PAGES)
  {
    var h1 := h[lo := SpanInfo(MAX_PAGES, 0, true)];
    CarveTiles(h, lo, n);
    FreshStart(h, lo, n);
    FreshPart(h, lo, n, lo, MAX_PAGES);
    FreshPart(h, lo, n, lo + MAX_PAGES, n - MAX_PAGES);
    DisjointAdd(h, lo, SpanInfo(MAX_PAGES, 0, true));
    FreshAdd(h, lo + MAX_PAGES, n - MAX_PAGES, lo, SpanInfo(MAX_PAGES, 0, true));
    CarveTiles(h1, lo + MAX_PAGES, n - MAX_PAGES);
    FreshStart(h1, lo + MAX_PAGES, n - MAX_PAGES);
  }

  // ---- taking a span ----

  /** Taking a free span makes exactly it in use: pages are conserved, every other span stays as it is, what is
      left of this one is one free span, and the heap stays a valid tiling. */
  lemma TakeSpanLaws(h: Heap, a: nat, n: nat, size: nat)
    requires ValidHeap(h) && Fits(h, a, n) && n >= 1
    ensures var h' := TakeSpan(h, a, n, size);
            && ValidHeap(h') && Pages(h') == Pages(h)
            && (forall x :: InUse(h', x) <==> InUse(h, x) || x == a)
            && h'[a] == SpanInfo(n, size, false)
            && (forall x | x in h && x != a :: x in h' && h'[x] == h[x])
            && (forall x | x in h' && x !in h :: x == a + n && h'[x] == SpanInfo(h[a].pages - n, 0, true))
  {
    var d, m := h - {a}, h[a].pages;
    var info, rest := SpanInfo(n, size, false), SpanInfo(m - n, 0, true);
    DisjointRemove(h, a);
    PagesAdd(d, a, h[a]);
    assert d[a := h[a]] == h && d[a := info] == h[a := info];
    FreshPart(d, a, m, a, n);
    DisjointAdd(d, a, info);
    PagesAdd(d, a, info);
    if n < m {
      FreshPart(d, a, m, a + n, m - n);
      FreshAdd(d, a + n, m - n, a, info);
      FreshStart(d, a + n, m - n);
      DisjointAdd(d[a := info], a + n, rest);
      PagesAdd(d[a := info], a + n, rest);
      assert forall p :: Within(p, a, m) <==> Within(p, a, n) || Within(p, a + n, m - n);
    }
  }

  /** Taking a span never makes two free spans adjacent: every pair after it stems from one before. */
  lemma TakeSpanPairs(h: Heap, a: nat, n: nat, size: nat)
    requires ValidHeap(h) && Fits(h, a, n) && n >= 1
    ensures forall x: nat, y: nat | FreePair(TakeSpan(h, a, n, size), x, y) ::
              FreePair(h, if x in h then x else a, y)
  {
    var h' := TakeSpan(h, a, n, size);
    assert InSpan(h, a, a + n - 1);
    RemainderStart(h, a, n);
    forall x: nat, y: nat | FreePair(h', x, y)
      ensures FreePair(h, if x in h then x else a, y)
    {
      assert x in h && x != a && x + h[x].pages == a + n ==> InSpan(h, x, a + n - 1);
    }
  }

  lemma RemainderStart(h: Heap, a: nat, n: nat)
    requires ValidHeap(h) && a in h && 1 <= n
    ensures n < h[a].pages ==> a + n !in h
  {
    if n < h[a].pages {
      RemainderFresh(h, a, n);
    }
  }

  /** Fresh pages from the OS become one more in-use span. */
  lemma MapSpanLaws(h: Heap, a: nat, n: nat, size: nat)
    requires ValidHeap(h) && 1 <= n <= MAX_PAGES && FreshPages(h, a, n)
    ensures var h' := h[a := SpanInfo(n, size, false)];
            && a !in h && ValidHeap(h') && Pages(h') == Pages(h) + Range(a, n)
            && (forall x :: InUse(h', x) <==> InUse(h, x) || x == a)
  {
    FreshStart(h, a, n);
    DisjointAdd(h, a, SpanInfo(n, size, false));
    PagesAdd(h, a, SpanInfo(n, size, false));
  }

  lemma UnmapSpanLaws(h: Heap, a: nat)
    requires ValidHeap(h) && a in h
    ensures ValidHeap(h - {a}) && Pages(h - {a}) == Pages(h) - Range(a, h[a].pages)
  {
    DisjointRemove(h, a);
    PagesAdd(h - {a}, a, h[a]);
    assert (h - {a})[a := h[a]] == h;
  }

  /** Serving a request makes exactly one span in use, on pages no span was using: the start of the shortest free
      span that is long enough, the first among equals, or pages from the OS when none is. */
  lemma ServedLaws(h0: Heap, h: Heap, a: nat, n: nat, size: nat, os: Option<nat>)
    requires ValidHeap(h0) && 1 <= n <= MAX_PAGES && Served(h0, h, a, n, size, os)
    requires os.Some? ==> FreshPages(h0, os.value, n)
    ensures ValidHeap(h) && a in h && h[a] == SpanInfo(n, size, false) && !InUse(h0, a)
    ensures forall x | InUse(h0, x) :: x in h && h[x] == h0[x]
    ensures forall x :: InUse(h, x) <==> InUse(h0, x) || x == a
    ensures Pages(h) == Pages(h0) + (if AnyFits(h0, n) then iset{} else Range(a, n))
    ensures if exists b: nat :: b in h0 && h0[b].free && n <= h0[b].pages then
              && a in h0 && h0[a].free && n <= h0[a].pages
              && forall b: nat | b in h0 && h0[b].free && n <= h0[b].pages ::
                   h0[a].pages < h0[b].pages || (h0[a].pages == h0[b].pages && a <= b)
            else os == Some(a)
  {
    assert AnyFits(h0, n) <==> exists b: nat :: b in h0 && h0[b].free && n <= h0[b].pages by {
      if b: nat :| b in h0 && h0[b].free && n <= h0[b].pages { assert Fits(h0, b, n); }
    }
    if AnyFits(h0, n) {
      TakeSpanLaws(h0, a, n, size);
    } else {
      MapSpanLaws(h0, a, n, size);
    }
  }

  // ---- runs ----

  /** One call that changed the heap. */
  datatype Call =
    | Take(start: nat, n: nat, size: nat)   // allocate_span served from a free span
    | Map(start: nat, n: nat, size: nat)    // allocate_span served by mmap
    | Return(start: nat)                    // return_span
    | Unmap(start: nat, n: nat)             // deallocate_span

  ghost predicate Allowed(h: Heap, c: Call) {
    match c
    case Take(a, n, _) => n >= 1 && BestFit(h, a, n)
    case Map(a, n, _) => 1 <= n <= MAX_PAGES && FreshPages(h, a, n)
    case Return(a) => InUse(h, a)
    case Unmap(a, n) => a in h && h[a].pages == n
  }

  ghost function Effect(h: Heap, c: Call): Heap
    requires Allowed(h, c)
  {
    match c
    case Take(a, n, size) => TakeSpan(h, a, n, size)
    case Map(a, n, size) => h[a := SpanInfo(n, size, false)]
    case Return(a) => GiveBack(h, a)
    case Unmap(a, _) => h - {a}
  }

  /** hs are the heaps of a run of `calls` that starts empty. */
  ghost predicate Run(hs: seq<Heap>, calls: seq<Call>) {
    && |hs| == |calls| + 1 && hs[0] == map[]
    && forall i | 0 <= i < |calls| :: Allowed(hs[i], calls[i]) && hs[i + 1] == Effect(hs[i], calls[i])
  }

  /** The pages the OS has given and not taken back. */
  ghost function Owned(calls: seq<Call>): iset<nat> {
    if calls == [] then iset{}
    else
      var before := Owned(calls[..|calls| - 1]);
      match calls[|calls| - 1]
      case Map(a, n, _) => before + Range(a, n)
      case Unmap(a, n) => before - Range(a, n)
      case _ => before
  }

  lemma EffectValid(h: Heap, c: Call)
    requires ValidHeap(h) && Allowed(h, c)
    ensures ValidHeap(Effect(h, c))
    ensures Pages(Effect(h, c)) == match c
                                   case Map(a, n, _) => Pages(h) + Range(a, n)
                                   case Unmap(a, n) => Pages(h) - Range(a, n)
                                   case _ => Pages(h)
  {
    match c
    case Take(a, n, size) => TakeSpanLaws(h, a, n, size);
    case Map(a, n, size) => MapSpanLaws(h, a, n, size);
    case Return(a) => GiveBackLaws(h, a);
    case Unmap(a, n) => UnmapSpanLaws(h, a);
  }

  /** In every run the live spans tile exactly the pages the OS has given and not taken back. */
  lemma {:induction false} RunTiles(hs: seq<Heap>, calls: seq<Call>)
    requires Run(hs, calls)
    ensures ValidHeap(hs[|calls|]) && Pages(hs[|calls|]) == Owned(calls)
    decreases |calls|
  {
    if calls == [] {
      assert forall p :: p !in Pages(map[]);
    } else {
      var k := |calls| - 1;
      RunTiles(hs[..k + 1], calls[..k]);
      EffectValid(hs[k], calls[k]);
    }
  }

  /** A return that needed carving. */
  ghost predicate Carves(h: Heap, c: Call) {
    c.Return? && c.start in h && RightEdge(h, c.start + h[c.start].pages) - LeftEdge(h, c.start) > MAX_PAGES
  }

  /** In every run without a carving return, no two free spans are ever adjacent. */
  lemma {:induction false} RunCoalesced(hs: seq<Heap>, calls: seq<Call>)
    requires Run(hs, calls) && forall i | 0 <= i < |calls| :: !Carves(hs[i], calls[i])
    ensures NoFreePairs(hs[|calls|])
    decreases |calls|
  {
    if calls != [] {
      var k := |calls| - 1;
      RunCoalesced(hs[..k + 1], calls[..k]);
      RunTiles(hs[..k + 1], calls[..k]);
      var h, h' := hs[k], hs[k + 1];
      match calls[k]
      case Take(a, n, size) => TakeSpanPairs(h, a, n, size);
      case Return(a) =>
        assert !Carves(h, calls[k]);
        GiveBackCoalesces(h, a);
      case Map(a, n, size) => assert forall x, y | FreePair(h', x, y) :: FreePair(h, x, y);
      case Unmap(a, n) => assert forall x, y | FreePair(h', x, y) :: FreePair(h, x, y);
    }
  }

  /** A run that does: two adjacent spans of 200 pages each, returned one after the other, merge to 400
      pages and come back as 255 and 145 free pages side by side. */
  lemma CarvingRun() returns (hs: seq<Heap>, calls: seq<Call>)
    ensures Run(hs, calls) && |calls| == 4 && Carves(hs[3], calls[3])
    ensures !NoFreePairs(hs[4])
  {
    hide Managed, GiveBack;
    var none: Heap := map[];
    var h1, h2 := map[0 := SpanInfo(200, 8, false)], map[0 := SpanInfo(200, 8, false), 200 := SpanInfo(200, 8, false)];
    FreshAfter(none, 0, 200);
    MapSpanLaws(none, 0, 200, 8);
    FreshAfter(h1, 200, 200);
    MapSpanLaws(h1, 200, 200, 8);
    assert none[0 := SpanInfo(200, 8, false)] == h1 && h1[200 := SpanInfo(200, 8, false)] == h2;
    GiveBackLaws(h2, 0);
    var h3 := GiveBack(h2, 0);
    FirstReturned(h2);
    GiveBackLaws(h3, 200);
    GiveBackCoalesces(h3, 200);
    hs := [none, h1, h2, h3, GiveBack(h3, 200)];
    calls := [Map(0, 200, 8), Map(200, 200, 8), Return(0), Return(200)];
    assert RightEdge(h3, 400) - LeftEdge(h3, 200) == 400;
  }

  lemma FreshAfter(h: Heap, a: nat, n: nat)
    requires forall x | x in h :: x + h[x].pages <= a
    ensures FreshPages(h, a, n)
  {
  }

  lemma FirstReturned(h: Heap)
    requires h == map[0 := SpanInfo(200, 8, false), 200 := SpanInfo(200, 8, false)] && ValidHeap(h)
    ensures var h' := GiveBack(h, 0);
            && h' == map[0 := SpanInfo(200, 0, true), 200 := SpanInfo(200, 8, false)]
            && RightEdge(h', 400) == 400 && LeftEdge(h', 200) == 0
  {
    assert LeftEdge(h, 0) == 0 && RightEdge(h, 200) == 200;
    assert Detach(h, 0) == map[200 := SpanInfo(200, 8, false)];
    var h' := map[0 := SpanInfo(200, 0, true), 200 := SpanInfo(200, 8, false)];
    assert GiveBack(h, 0) == h';
    assert FreeEndingAt(h', 0, 200);
  }
}
