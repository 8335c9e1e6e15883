/** The back end (page_heap.hpp): spans of pages in sorted, doubly linked buckets and a page map. */
module PageHeaps {
  import opened Sequences
  import opened Widths
  import opened PageHeapSpec

  class Span {
    var start: nat      // first page
    var numPages: nat
    var next: Span?
    var prev: Span?
    var size: uint32
    var totalObjects: nat
    var numFreeObjects: nat
    var nextUninitialized: nat
    var freelistHead: uint16
    var isFree: bool

    constructor (start: nat, numPages: nat, size: uint32, isFree: bool)
      ensures this.start == start && this.numPages == numPages
      ensures this.size == size && this.isFree == isFree
      ensures next == null && prev == null
      ensures totalObjects == numFreeObjects == nextUninitialized == 0 && freelistHead == INVALID_INDEX
    {
      this.start, this.numPages, this.size, this.isFree := start, numPages, size, isFree;
      next, prev := null, null;
      totalObjects, numFreeObjects, nextUninitialized := 0, 0, 0;
      freelistHead := INVALID_INDEX;
    }

    /** Every field is as it was. */
    twostate predicate Same()
      reads this
    {
      && start == old(start) && numPages == old(numPages) && size == old(size) && isFree == old(isFree)
      && next == old(next) && prev == old(prev)
      && totalObjects == old(totalObjects) && numFreeObjects == old(numFreeObjects)
      && nextUninitialized == old(nextUninitialized) && freelistHead == old(freelistHead)
    }
  }

  function Distance(x: uint32, y: uint32): uint32 {
    if x > y then x - y else y - x
  }

  // ---- the page map, over plain values ----

  /** Page p maps to span s exactly when s is live and contains p. */
  ghost predicate MapExact(pageMap: map<nat, Span>, spans: map<nat, Span>, h: Heap) {
    && spans.Keys == h.Keys
    && (forall p | p in pageMap :: exists a: nat :: InSpan(h, a, p) && pageMap[p] == spans[a])
    && (forall a, p | InSpan(h, a, p) :: p in pageMap && pageMap[p] == spans[a])
  }

  /** m' is m with the pages [a, a + n) mapped to s. */
  ghost predicate Mapped(m: map<nat, Span>, m': map<nat, Span>, a: nat, n: nat, s: Span) {
    && (forall p :: p in m' <==> p in m || a <= p < a + n)
    && (forall p | p in m' :: m'[p] == if a <= p < a + n then s else m[p])
  }

  /** m' is m without the pages [a, a + n). */
  ghost predicate Erased(m: map<nat, Span>, m': map<nat, Span>, a: nat, n: nat) {
    && (forall p :: p in m' <==> p in m && !(a <= p < a + n))
    && (forall p | p in m' :: m'[p] == m[p])
  }

  lemma RegisterExact(m: map<nat, Span>, m': map<nat, Span>, spans: map<nat, Span>, h: Heap,
                      s: Span, a: nat, info: SpanInfo)
    requires MapExact(m, spans, h) && Mapped(m, m', a, info.pages, s)
    requires a !in h && FreshPages(h, a, info.pages)
    ensures MapExact(m', spans[a := s], h[a := info])
  {
    var h', spans' := h[a := info], spans[a := s];
    forall p | p in m'
      ensures exists b: nat :: InSpan(h', b, p) && m'[p] == spans'[b]
    {
      if a <= p < a + info.pages {
        assert InSpan(h', a, p);
      } else {
        var b: nat :| InSpan(h, b, p) && m[p] == spans[b];
        assert InSpan(h', b, p);
      }
    }
    forall b: nat, p: nat | InSpan(h', b, p)
      ensures p in m' && m'[p] == spans'[b]
    {
      if b != a {
        assert InSpan(h, b, p) && Managed(h, p);
      }
    }
  }

  lemma UnregisterExact(m: map<nat, Span>, m': map<nat, Span>, spans: map<nat, Span>, h: Heap, a: nat)
    requires Disjoint(h) && MapExact(m, spans, h) && a in h && Erased(m, m', a, h[a].pages)
    ensures MapExact(m', spans - {a}, h - {a})
  {
    var h', spans' := h - {a}, spans - {a};
    forall p | p in m'
      ensures exists b: nat :: InSpan(h', b, p) && m'[p] == spans'[b]
    {
      var b: nat :| InSpan(h, b, p) && m[p] == spans[b];
      assert InSpan(h', b, p);
    }
    forall b: nat, p: nat | InSpan(h', b, p)
      ensures p in m' && m'[p] == spans'[b]
    {
      assert InSpan(h, b, p);
      assert a <= p < a + h[a].pages ==> InSpan(h, a, p);
    }
  }

  lemma SamePages(m: map<nat, Span>, spans: map<nat, Span>, h: Heap, a: nat, info: SpanInfo)
    requires Disjoint(h) && MapExact(m, spans, h)
    requires a in h && info.pages == h[a].pages
    ensures Disjoint(h[a := info]) && MapExact(m, spans, h[a := info])
  {
    var h' := h[a := info];
    assert forall b, p :: InSpan(h, b, p) <==> InSpan(h', b, p);
  }

  lemma Reinsert<K, V>(m: map<K, V>, k: K, v: V)
    ensures (m - {k})[k := v] == m[k := v]
    ensures m[k := v] - {k} == m - {k}
  {
  }

  // ---- the buckets, as sequences of first pages ----

  ghost predicate Ascending(b: seq<nat>) {
    forall j, k | 0 <= j < k < |b| :: b[j] < b[k]
  }

  /** Bucket i lists, in ascending order, exactly the free spans of i pages that are not `pending`. */
  ghost predicate BucketsExact(buckets: seq<seq<nat>>, h: Heap, pending: set<nat>) {
    && |buckets| == MAX_PAGES + 1
    && forall i | 0 <= i <= MAX_PAGES ::
         && Ascending(buckets[i])
         && forall a :: a in buckets[i] <==> (a in h && h[a].free && h[a].pages == i && a !in pending)
  }

  lemma DropIn(b: seq<nat>, k: nat)
    requires Ascending(b) && k < |b|
    ensures Ascending(Drop(b, k))
    ensures forall x :: x in Drop(b, k) <==> x in b && x != b[k]
  {
    forall x | x in b && x != b[k]
      ensures x in Drop(b, k)
    {
      var j :| 0 <= j < |b| && b[j] == x;
      assert x == Drop(b, k)[if j < k then j else j - 1];
    }
  }

  lemma InsertIn(b: seq<nat>, k: nat, x: nat)
    requires Ascending(b) && k <= |b|
    requires forall j | 0 <= j < |b| :: (b[j] < x <==> j < k) && b[j] != x
    ensures Ascending(InsertAt(b, k, x))
    ensures forall y :: y in InsertAt(b, k, x) <==> y in b || y == x
  {
    var b' := InsertAt(b, k, x);
    assert b'[k] == x;
    forall y | y in b
      ensures y in b'
    {
      var j :| 0 <= j < |b| && b[j] == y;
      assert y == b'[if j < k then j else j + 1];
    }
  }

  /** In-use spans other than the one at `a` are the same objects as in (h0, spans0); a free one
      was free there too, or is `span`, or is one of the `made` new ones. */
  ghost predicate Kept(h0: Heap, spans0: map<nat, Span>, h: Heap, spans: map<nat, Span>,
                       a: nat, span: Span, made: set<Span>)
  {
    h.Keys == spans.Keys && h0.Keys == spans0.Keys &&
    forall x | x in h ::
      if !h[x].free then
        x != a ==> x in h0 && h[x] == h0[x] && spans[x] == spans0[x]
      else
        spans[x] == span || spans[x] in made || (x in h0 && h0[x].free && spans[x] == spans0[x])
  }

  lemma KeptCarve(h0: Heap, spans0: map<nat, Span>, h: Heap, spans: map<nat, Span>,
                  a: nat, span: Span, made: set<Span>, s: nat, n: nat, front: Span)
    requires Kept(h0, spans0, h, spans, a, span, made)
    ensures Kept(h0, spans0,
                 (h - {s})[s + MAX_PAGES := SpanInfo(n, 0, true)][s := SpanInfo(MAX_PAGES, 0, true)],
                 (spans - {s})[s + MAX_PAGES := span][s := front], a, span, made + {front})
  {
  }

  // ---- one doubly linked list ----

  ghost function Objects(spans: map<nat, Span>, b: seq<nat>): (r: seq<Span>)
    requires forall x | x in b :: x in spans
    ensures |r| == |b|
  {
    seq(|b|, k requires 0 <= k < |b| => spans[b[k]])
  }

  lemma ObjectsDrop(spans: map<nat, Span>, b: seq<nat>, k: nat)
    requires k < |b| && forall x | x in b :: x in spans
    ensures forall x | x in Drop(b, k) :: x in spans
    ensures Objects(spans, Drop(b, k)) == Drop(Objects(spans, b), k)
  {
  }

  lemma ObjectsInsert(spans: map<nat, Span>, b: seq<nat>, k: nat, a: nat)
    requires k <= |b| && a in spans && forall x | x in b :: x in spans
    ensures forall x | x in InsertAt(b, k, a) :: x in spans
    ensures Objects(spans, InsertAt(b, k, a)) == InsertAt(Objects(spans, b), k, spans[a])
  {
  }

  /** Every list is made of live spans, none twice, and no two lists share one. */
  ghost predicate ListsApart(buckets: seq<seq<nat>>, spans: map<nat, Span>) {
    && |buckets| == MAX_PAGES + 1
    && (forall i | 0 <= i <= MAX_PAGES :: forall x | x in buckets[i] :: x in spans)
    && (forall i | 0 <= i <= MAX_PAGES :: Distinct(Objects(spans, buckets[i])))
    && (forall i, j | 0 <= i <= MAX_PAGES && 0 <= j <= MAX_PAGES && i != j ::
         forall s | s in Objects(spans, buckets[i]) :: s !in Objects(spans, buckets[j]))
  }

  lemma BucketsApart(buckets: seq<seq<nat>>, spans: map<nat, Span>, h: Heap, pending: set<nat>)
    requires BucketsExact(buckets, h, pending) && spans.Keys == h.Keys
    requires forall x, y | x in spans && y in spans && spans[x] == spans[y] :: x == y
    ensures ListsApart(buckets, spans)
  {
    forall i, j, p, q | 0 <= i <= MAX_PAGES && 0 <= j <= MAX_PAGES && i != j && 0 <= p < |buckets[i]|
       && 0 <= q < |buckets[j]|
      ensures Objects(spans, buckets[i])[p] != Objects(spans, buckets[j])[q]
    {
      assert buckets[i][p] in buckets[i] && buckets[j][q] in buckets[j];
    }
  }

  lemma BucketsDrop(buckets: seq<seq<nat>>, h: Heap, pending: set<nat>, a: nat, k: nat)
    requires BucketsExact(buckets, h, pending) && a in h && h[a].pages <= MAX_PAGES
    requires k < |buckets[h[a].pages]| && buckets[h[a].pages][k] == a
    ensures BucketsExact(buckets[h[a].pages := Drop(buckets[h[a].pages], k)], h[a := h[a].(free := false)], pending)
  {
    DropIn(buckets[h[a].pages], k);
  }

  lemma BucketsEnter(buckets: seq<seq<nat>>, h: Heap, pending: set<nat>, a: nat, info: SpanInfo)
    requires BucketsExact(buckets, h, pending) && a !in h
    ensures BucketsExact(buckets, h[a := info], if info.free then pending + {a} else pending)
  {
  }

  lemma BucketsLeave(buckets: seq<seq<nat>>, h: Heap, pending: set<nat>, a: nat)
    requires BucketsExact(buckets, h, pending) && a in h && (h[a].free ==> a in pending)
    ensures BucketsExact(buckets, h - {a}, pending - {a})
    ensures forall i | 0 <= i <= MAX_PAGES :: a !in buckets[i]
  {
  }

  lemma BucketsInsert(buckets: seq<seq<nat>>, h: Heap, pending: set<nat>, a: nat, k: nat)
    requires BucketsExact(buckets, h, pending) && a in pending
    requires a in h && h[a].free && h[a].pages <= MAX_PAGES && k <= |buckets[h[a].pages]|
    requires forall j | 0 <= j < |buckets[h[a].pages]| :: buckets[h[a].pages][j] < a <==> j < k
    ensures BucketsExact(buckets[h[a].pages := InsertAt(buckets[h[a].pages], k, a)], h, pending - {a})
  {
    InsertIn(buckets[h[a].pages], k, a);
  }

  lemma BucketsSame(buckets: seq<seq<nat>>, h: Heap, pending: set<nat>, a: nat, info: SpanInfo)
    requires BucketsExact(buckets, h, pending) && a in h && !h[a].free && !info.free
    ensures BucketsExact(buckets, h[a := info], pending)
  {
  }

  lemma BucketsPending(buckets: seq<seq<nat>>, h: Heap, a: nat, info: SpanInfo)
    requires BucketsExact(buckets, h, {}) && a in h && !h[a].free && info.free
    ensures BucketsExact(buckets, h[a := info], {a})
  {
  }

  ghost function At(b: seq<Span>, k: int): Span? {
    if 0 <= k < |b| then b[k] else null
  }

  ghost predicate Linked(b: seq<Span>, head: Span?)
    reads b`next, b`prev
  {
    && head == At(b, 0)
    && forall k | 0 <= k < |b| :: b[k].prev == At(b, k - 1) && b[k].next == At(b, k + 1)
  }

  lemma LinkedDrop(b: seq<Span>, k: nat, head: Span?)
    requires k < |b|
    requires head == if k == 0 then At(b, 1) else At(b, 0)
    requires forall j | 0 <= j < |b| && j != k ::
               && b[j].prev == (if j == k + 1 then At(b, k - 1) else At(b, j - 1))
               && b[j].next == (if j == k - 1 then At(b, k + 1) else At(b, j + 1))
    ensures Linked(Drop(b, k), head)
  {
    var b' := Drop(b, k);
    forall j | 0 <= j < |b'|
      ensures b'[j].prev == At(b', j - 1) && b'[j].next == At(b', j + 1)
    {
      assert b'[j] == b[if j < k then j else j + 1];
    }
  }

  lemma LinkedInsert(b: seq<Span>, k: nat, s: Span, head: Span?)
    requires k <= |b|
    requires head == if k == 0 then s else At(b, 0)
    requires s.prev == At(b, k - 1) && s.next == At(b, k)
    requires forall j | 0 <= j < |b| ::
               && b[j].prev == (if j == k then s else At(b, j - 1))
               && b[j].next == (if j == k - 1 then s else At(b, j + 1))
    ensures Linked(InsertAt(b, k, s), head)
  {
    var b' := InsertAt(b, k, s);
    assert b'[k] == s;
    forall j | 0 <= j < |b'|
      ensures b'[j].prev == At(b', j - 1) && b'[j].next == At(b', j + 1)
    {
      if j < k {
        assert b'[j] == b[j];
      } else if j > k {
        assert b'[j] == b[j - 1];
      }
    }
  }

  class PageHeap {
    const freeLists: array<Span?>
    var pageMap: map<nat, Span>

    ghost var h: Heap                 // the abstract value
    ghost var spans: map<nat, Span>   // live spans by first page
    ghost var buckets: seq<seq<nat>>  // first pages, in list order

    ghost predicate FieldsExact()
      reads `h, `spans, spans.Values`start, spans.Values`numPages, spans.Values`size, spans.Values`isFree
    {
      && spans.Keys == h.Keys
      && forall a | a in h ::
           && spans[a].start == a && spans[a].numPages == h[a].pages >= 1
           && spans[a].size == h[a].size && spans[a].isFree == h[a].free
    }

    ghost predicate ListsLinked()
      reads `spans, `buckets, freeLists, spans.Values`next, spans.Values`prev
    {
      && freeLists.Length == MAX_PAGES + 1 == |buckets|
      && forall i | 0 <= i <= MAX_PAGES ::
           && (forall x | x in buckets[i] :: x in spans)
           && Linked(Objects(spans, buckets[i]), freeLists[i])
    }

    /** Everything but the bucket placement of the `pending` free spans. */
    ghost predicate Inv(pending: set<nat>)
      reads this, freeLists, spans.Values
    {
      FieldsExact() && Disjoint(h) && MapExact(pageMap, spans, h) &&
      BucketsExact(buckets, h, pending) && ListsLinked()
    }

    ghost predicate Valid()
      reads this, freeLists, spans.Values
    {
      Inv({}) && ValidHeap(h)
    }

    ghost predicate Live(span: Span)
      reads `h, `spans, span`start
    {
      span.start in h && span.start in spans && spans[span.start] == span
    }

    ghost function FreeSpans(): set<Span>
      reads this
    {
      set a | a in h && a in spans && h[a].free :: spans[a]
    }

    constructor ()
      ensures Valid() && h == map[] && fresh(freeLists)
    {
      freeLists := new Span?[MAX_PAGES + 1](_ => null);
      pageMap, h, spans := map[], map[], map[];
      buckets := seq(MAX_PAGES + 1, _ => []);
    }

    method Lookup(page: nat) returns (s: Span?)
      ensures s == if page in pageMap then pageMap[page] else null
    {
      s := if page in pageMap then pageMap[page] else null;
    }

    /** Maps every page of the span. */
    method RegisterSpan(span: Span)
      modifies this`pageMap
      ensures Mapped(old(pageMap), pageMap, span.start, span.numPages, span)
    {
      for p := 0 to span.numPages
        invariant Mapped(old(pageMap), pageMap, span.start, p, span)
      {
        pageMap := pageMap[span.start + p := span];
      }
    }

    /** Erases every page of the span. */
    method UnregisterSpan(span: Span)
      modifies this`pageMap
      ensures Erased(old(pageMap), pageMap, span.start, span.numPages)
    {
      for p := 0 to span.numPages
        invariant Erased(old(pageMap), pageMap, span.start, p)
      {
        pageMap := pageMap - {span.start + p};
      }
    }

    /** Unlinks the span at position k of list idx through its prev pointer. */
    method Unlink(span: Span, idx: nat, ghost b: seq<Span>, ghost k: nat)
      requires idx < freeLists.Length && Linked(b, freeLists[idx]) && Distinct(b)
      requires k < |b| && b[k] == span
      modifies freeLists, b`next, b`prev
      ensures forall i | 0 <= i < freeLists.Length && i != idx :: freeLists[i] == old(freeLists[i])
      ensures Linked(Drop(b, k), freeLists[idx])
      ensures span.next == null && span.prev == null
    {
      if span.prev != null {
        span.prev.next := span.next;
      } else {
        freeLists[idx] := span.next;
      }
      if span.next != null {
        span.next.prev := span.prev;
      }
      span.next := null;
      span.prev := null;
      LinkedDrop(b, k, freeLists[idx]);
    }

    /** Links a span between its neighbours at position k of list idx. */
    method LinkBetween(prev: Span?, span: Span, curr: Span?, idx: nat, ghost b: seq<Span>, ghost k: nat)
      requires idx < freeLists.Length && Linked(b, freeLists[idx]) && Distinct(b) && span !in b
      requires k <= |b| && curr == At(b, k) && prev == At(b, k - 1)
      modifies freeLists, b`next, b`prev, span`next, span`prev
      ensures forall i | 0 <= i < freeLists.Length && i != idx :: freeLists[i] == old(freeLists[i])
      ensures Linked(InsertAt(b, k, span), freeLists[idx])
    {
      span.next := curr;
      span.prev := prev;
      if curr != null {
        curr.prev := span;
      }
      if prev != null {
        prev.next := span;
      } else {
        freeLists[idx] := span;
      }
      LinkedInsert(b, k, span, freeLists[idx]);
    }

    /** Where in list idx a span of this start belongs. */
    method FindPlace(start: nat, idx: nat, ghost b: seq<Span>, ghost starts: seq<nat>)
      returns (prev: Span?, curr: Span?, ghost k: nat)
      requires idx < freeLists.Length && Linked(b, freeLists[idx])
      requires |starts| == |b| && Ascending(starts) && start !in starts
      requires forall j | 0 <= j < |b| :: b[j].start == starts[j]
      ensures k <= |b| && curr == At(b, k) && prev == At(b, k - 1)
      ensures forall j | 0 <= j < |b| :: starts[j] < start <==> j < k
    {
      hide Linked, Ascending;
      LinkedFrom(b, freeLists[idx], 0);
      prev, curr, k := null, freeLists[idx], 0;
      while curr != null && curr.start <= start
        invariant k <= |b| && curr == At(b, k) && prev == At(b, k - 1)
        invariant forall j | 0 <= j < k :: starts[j] < start
        decreases |b| - k
      {
        LinkedFrom(b, freeLists[idx], k);
        assert starts[k] in starts;
        prev := curr;
        curr := curr.next;
        k := k + 1;
      }
      AscendingFrom(starts, k);
    }

    lemma LinkedFrom(b: seq<Span>, head: Span?, k: nat)
      requires Linked(b, head)
      ensures head == At(b, 0) && (k < |b| ==> b[k].next == At(b, k + 1))
    {
    }

    lemma AscendingFrom(starts: seq<nat>, k: nat)
      requires Ascending(starts)
      ensures forall j | k <= j < |starts| :: starts[k] <= starts[j]
    {
    }

    /** Links a span into list idx before the first one with a larger start. */
    method Link(span: Span, idx: nat, ghost b: seq<Span>, ghost starts: seq<nat>) returns (ghost k: nat)
      requires idx < freeLists.Length && Linked(b, freeLists[idx]) && Distinct(b) && span !in b
      requires |starts| == |b| && Ascending(starts) && span.start !in starts
      requires forall j | 0 <= j < |b| :: b[j].start == starts[j]
      modifies freeLists, b`next, b`prev, span`next, span`prev
      ensures forall i | 0 <= i < freeLists.Length && i != idx :: freeLists[i] == old(freeLists[i])
      ensures k <= |b| && Linked(InsertAt(b, k, span), freeLists[idx])
      ensures forall j | 0 <= j < |b| :: starts[j] < span.start <==> j < k
    {
      hide *;
      var prev, curr;
      prev, curr, k := FindPlace(span.start, idx, b, starts);
      LinkBetween(prev, span, curr, idx, b, k);
    }

    // ---- bucket operations on the invariant ----

    lemma Apart(pending: set<nat>)
      requires FieldsExact() && BucketsExact(buckets, h, pending)
      ensures ListsApart(buckets, spans)
    {
      BucketsApart(buckets, spans, h, pending);
    }

    lemma ObjectsFree(pending: set<nat>, i: nat)
      requires FieldsExact() && BucketsExact(buckets, h, pending) && i <= MAX_PAGES
      ensures forall x | x in buckets[i] :: x in spans
      ensures forall s | s in Objects(spans, buckets[i]) :: s in FreeSpans()
    {
      forall s | s in Objects(spans, buckets[i])
        ensures s in FreeSpans()
      {
        var j :| 0 <= j < |buckets[i]| && Objects(spans, buckets[i])[j] == s;
        assert buckets[i][j] in buckets[i];
      }
    }

    /** Writing the links of one list keeps the other lists. */
    twostate lemma OthersLinked(idx: nat)
      requires old(ListsLinked()) && spans == old(spans) && buckets == old(buckets)
      requires forall i | 0 <= i <= MAX_PAGES && i != idx ::
                 && freeLists[i] == old(freeLists[i])
                 && forall s | s in Objects(spans, buckets[i]) :: s.next == old(s.next) && s.prev == old(s.prev)
      ensures forall i | 0 <= i <= MAX_PAGES && i != idx :: Linked(Objects(spans, buckets[i]), freeLists[i])
    {
      forall i | 0 <= i <= MAX_PAGES && i != idx
        ensures Linked(Objects(spans, buckets[i]), freeLists[i])
      {
        var b := Objects(spans, buckets[i]);
        assert old(Linked(b, freeLists[i]));
        assert forall k | 0 <= k < |b| :: b[k] in b;
      }
    }

    method UnlinkListed(span: Span, idx: nat, ghost k: nat, ghost b: seq<Span>)
      requires ListsLinked() && ListsApart(buckets, spans)
      requires idx <= MAX_PAGES && k < |buckets[idx]| && spans[buckets[idx][k]] == span
      requires b == Objects(spans, buckets[idx])
      modifies this`buckets, freeLists, b`next, b`prev
      ensures buckets == old(buckets)[idx := Drop(old(buckets)[idx], k)]
      ensures ListsLinked() && span.next == null && span.prev == null
    {
      Unlink(span, idx, b, k);
      OthersLinked(idx);
      ObjectsDrop(spans, buckets[idx], k);
      buckets := buckets[idx := Drop(buckets[idx], k)];
    }

    method MarkUsed(span: Span)
      requires FieldsExact() && Live(span)
      modifies this`h, span`isFree
      ensures FieldsExact() && h == old(h)[span.start := old(h[span.start]).(free := false)]
    {
      span.isFree := false;
      h := h[span.start := h[span.start].(free := false)];
    }

    lemma Position(span: Span, pending: set<nat>) returns (k: nat)
      requires Inv(pending)
      requires Live(span) && span.start !in pending
      requires h[span.start].free && h[span.start].pages <= MAX_PAGES
      ensures span.numPages == h[span.start].pages && |buckets| == MAX_PAGES + 1 == freeLists.Length
      ensures k < |buckets[span.numPages]| && buckets[span.numPages][k] == span.start
    {
      k :| 0 <= k < |buckets[span.numPages]| && buckets[span.numPages][k] == span.start;
    }

    ghost method AddLive(span: Span)
      requires FieldsExact() && ListsLinked() && span.start !in h && span.numPages >= 1
      modifies this`h, this`spans
      ensures h == old(h)[span.start := SpanInfo(span.numPages, span.size, span.isFree)]
      ensures spans == old(spans)[span.start := span]
      ensures FieldsExact() && ListsLinked()
    {
      ghost var spans' := spans[span.start := span];
      assert forall i | 0 <= i <= MAX_PAGES :: Objects(spans', buckets[i]) == Objects(spans, buckets[i]);
      h, spans := h[span.start := SpanInfo(span.numPages, span.size, span.isFree)], spans';
    }

    ghost method DropLive(a: nat)
      requires FieldsExact() && ListsLinked() && a in h
      requires forall i | 0 <= i <= MAX_PAGES :: a !in buckets[i]
      modifies this`h, this`spans
      ensures h == old(h) - {a} && spans == old(spans) - {a}
      ensures FieldsExact() && ListsLinked()
    {
      ghost var spans' := spans - {a};
      assert forall i, x | 0 <= i <= MAX_PAGES && x in buckets[i] :: x in spans' && spans'[x] == spans[x];
      assert forall i | 0 <= i <= MAX_PAGES :: Objects(spans', buckets[i]) == Objects(spans, buckets[i]);
      h, spans := h - {a}, spans';
    }

    /** Registers a span that becomes live: in use, or free and yet to be inserted. */
    method Enter(span: Span, ghost pending: set<nat>, ghost after: set<nat>)
      requires Inv(pending) && after == if span.isFree then pending + {span.start} else pending
      requires span.start !in h && span.numPages >= 1
      requires FreshPages(h, span.start, span.numPages)
      modifies this`pageMap, this`h, this`spans
      ensures h == old(h)[span.start := SpanInfo(span.numPages, span.size, span.isFree)]
      ensures spans == old(spans)[span.start := span]
      ensures Inv(after)
    {
      hide FieldsExact, ListsLinked, MapExact, Disjoint, BucketsExact;
      ghost var a, info := span.start, SpanInfo(span.numPages, span.size, span.isFree);
      RegisterSpan(span);
      RegisterExact(old(pageMap), pageMap, spans, h, span, a, info);
      DisjointAdd(h, a, info);
      BucketsEnter(buckets, h, pending, a, info);
      AddLive(span);
    }

    /** Unregisters a span that stops being live and is in no bucket. */
    method Leave(span: Span, ghost pending: set<nat>, ghost after: set<nat>)
      requires Inv(pending) && after == pending - {span.start}
      requires Live(span)
      requires h[span.start].free ==> span.start in pending
      modifies this`pageMap, this`h, this`spans
      ensures h == old(h) - {span.start} && spans == old(spans) - {span.start}
      ensures Inv(after) && span !in spans.Values
      ensures FreshPages(h, span.start, span.numPages)
    {
      hide FieldsExact, ListsLinked, MapExact, Disjoint, BucketsExact;
      Unique(span);
      LiveFields(span.start);
      ghost var a := span.start;
      UnregisterSpan(span);
      UnregisterExact(old(pageMap), pageMap, spans, h, a);
      DisjointRemove(h, a);
      BucketsLeave(buckets, h, pending, a);
      DropLive(a);
    }

    /** Takes a listed span out of its bucket. */
    method RemoveFromFreeList(span: Span, ghost pending: set<nat>)
      requires Inv(pending)
      requires Live(span) && span.start !in pending
      requires h[span.start].free && h[span.start].pages <= MAX_PAGES
      modifies this`h, this`buckets, freeLists, FreeSpans()`next, FreeSpans()`prev, FreeSpans()`isFree
      ensures h == old(h)[span.start := old(h[span.start]).(free := false)]
      ensures Inv(pending)
      ensures span.next == null && span.prev == null
    {
      hide FieldsExact, ListsLinked, MapExact, Disjoint, ListsApart, BucketsExact;
      ghost var k := Position(span, pending);
      ghost var a := span.start;
      var idx := span.numPages;
      Apart(pending);
      ObjectsFree(pending, idx);
      BucketsDrop(buckets, h, pending, a, k);
      SamePages(pageMap, spans, h, a, h[a].(free := false));
      UnlinkListed(span, idx, k, Objects(spans, buckets[idx]));
      MarkUsed(span);
    }

    method LinkListed(span: Span, idx: nat, ghost b: seq<Span>) returns (ghost k: nat)
      requires FieldsExact() && ListsLinked() && ListsApart(buckets, spans) && idx <= MAX_PAGES
      requires Live(span)
      requires Ascending(buckets[idx]) && forall i | 0 <= i <= MAX_PAGES :: span.start !in buckets[i]
      requires b == Objects(spans, buckets[idx])
      modifies this`buckets, freeLists, span`next, span`prev, b`next, b`prev
      ensures k <= |old(buckets)[idx]| && buckets == old(buckets)[idx := InsertAt(old(buckets)[idx], k, span.start)]
      ensures forall j | 0 <= j < |old(buckets)[idx]| :: old(buckets)[idx][j] < span.start <==> j < k
      ensures ListsLinked()
    {
      hide FieldsExact, Ascending, Distinct, Linked, At;
      Absent(span);
      k := Link(span, idx, b, buckets[idx]);
      OthersLinked(idx);
      ObjectsInsert(spans, buckets[idx], k, span.start);
      buckets := buckets[idx := InsertAt(buckets[idx], k, span.start)];
    }

    /** A live span is on no list that does not name its start. */
    lemma Absent(span: Span)
      requires FieldsExact() && ListsLinked()
      requires Live(span)
      requires forall i | 0 <= i <= MAX_PAGES :: span.start !in buckets[i]
      ensures forall i | 0 <= i <= MAX_PAGES ::
                && span !in Objects(spans, buckets[i])
                && forall j | 0 <= j < |buckets[i]| :: Objects(spans, buckets[i])[j].start == buckets[i][j]
    {
      forall i | 0 <= i <= MAX_PAGES
        ensures span !in Objects(spans, buckets[i])
        ensures forall j | 0 <= j < |buckets[i]| :: Objects(spans, buckets[i])[j].start == buckets[i][j]
      {
        forall j | 0 <= j < |buckets[i]|
          ensures Objects(spans, buckets[i])[j].start == buckets[i][j] != span.start
        {
          assert buckets[i][j] in buckets[i];
        }
      }
    }

    /** Puts a pending free span into its bucket. */
    method Insert(span: Span, ghost pending: set<nat>, ghost after: set<nat>)
      requires Inv(pending) && after == pending - {span.start}
      requires Live(span) && span.start in pending
      requires h[span.start].free && h[span.start].pages <= MAX_PAGES
      modifies this`buckets, freeLists, FreeSpans()`next, FreeSpans()`prev
      ensures Inv(after)
    {
      hide FieldsExact, ListsLinked, MapExact, Disjoint, ListsApart;
      Unlisted(span, pending);
      Apart(pending);
      ObjectsFree(pending, span.numPages);
      ghost var k := LinkListed(span, span.numPages, Objects(spans, buckets[span.numPages]));
      BucketsInsert(old(buckets), h, pending, span.start, k);
    }

    lemma Unlisted(span: Span, pending: set<nat>)
      requires Inv(pending)
      requires Live(span) && span.start in pending
      ensures span.numPages == h[span.start].pages && span.isFree == h[span.start].free
      ensures forall i | 0 <= i <= MAX_PAGES :: span.start !in buckets[i]
      ensures h[span.start].free ==> span in FreeSpans()
    {
    }

    method SetSize(span: Span, size: uint32)
      requires Inv({}) && Live(span) && !h[span.start].free
      modifies this`h, span`size
      ensures Inv({}) && h == old(h)[span.start := old(h[span.start]).(size := size)]
    {
      hide MapExact, Disjoint, BucketsExact;
      ghost var info := h[span.start].(size := size);
      SamePages(pageMap, spans, h, span.start, info);
      BucketsSame(buckets, h, {}, span.start, info);
      span.size := size;
      h := h[span.start := info];
    }

    /** Unregisters a span, moves its bounds and registers it again. */
    method Resize(span: Span, start: nat, numPages: nat, ghost pending: set<nat>, ghost after: set<nat>)
      requires Inv(pending) && Live(span) && numPages >= 1
      requires h[span.start].free <==> span.start in pending
      requires FreshPages(h - {span.start}, start, numPages)
      requires after == if h[span.start].free then pending - {span.start} + {start} else pending
      modifies this`pageMap, this`h, this`spans, span`start, span`numPages
      ensures Inv(after) && Live(span) && span.start == start && span.numPages == numPages
      ensures h == (old(h) - {old(span.start)})[start := old(h[span.start]).(pages := numPages)]
      ensures spans == (old(spans) - {old(span.start)})[start := span]
    {
      hide FieldsExact, ListsLinked, MapExact, Disjoint, ListsApart, BucketsExact;
      LiveFields(span.start);
      ghost var mid := pending - {span.start};
      Leave(span, pending, mid);
      span.start := start;
      span.numPages := numPages;
      FreshStart(h, start, numPages);
      LivePages();
      Enter(span, mid, after);
    }

    /** Keeps the first pages in `span`; the rest becomes a free span. */
    method Split(span: Span, numPages: nat)
      requires Inv({}) && Live(span) && !h[span.start].free
      requires 1 <= numPages < h[span.start].pages <= MAX_PAGES
      modifies this, freeLists, FreeSpans(), span`start, span`numPages
      ensures Inv({}) && Live(span) && span.start == old(span.start)
      ensures span.start + numPages in spans && fresh(spans[span.start + numPages])
      ensures span.start + numPages !in old(h)
      ensures h == old(h)[span.start := old(h[span.start]).(pages := numPages)]
                         [span.start + numPages := SpanInfo(old(h[span.start]).pages - numPages, 0, true)]
      ensures spans == old(spans)[span.start + numPages := spans[span.start + numPages]]
      ensures span.next == old(span.next) && span.prev == old(span.prev)
    {
      hide FieldsExact, ListsLinked, MapExact, Disjoint, ListsApart, BucketsExact;
      LiveFields(span.start);
      LivePages();
      ghost var a := span.start;
      RemainderFresh(h, a, numPages);
      var remainder := new Span(span.start + numPages, span.numPages - numPages, 0, true);
      Resize(span, span.start, numPages, {}, {});
      assert h == old(h)[a := old(h[a]).(pages := numPages)] && spans == old(spans);
      Enter(remainder, {}, {remainder.start});
      NotFree(a);
      assert spans[a + numPages] == remainder;
      if remainder.numPages <= MAX_PAGES {
        Insert(remainder, {remainder.start}, {});
      }
    }

    lemma Unique(span: Span)
      requires FieldsExact() && Live(span)
      ensures span !in (spans - {span.start}).Values
    {
    }

    lemma NotFree(a: nat)
      requires FieldsExact() && a in h && !h[a].free
      ensures spans[a] !in FreeSpans()
    {
    }

    lemma LiveFields(a: nat)
      requires FieldsExact() && a in h
      ensures a in spans && spans[a].start == a && spans[a].numPages == h[a].pages >= 1
      ensures spans[a].size == h[a].size && spans[a].isFree == h[a].free
    {
    }

    lemma LivePages()
      requires FieldsExact()
      ensures forall a | a in h :: h[a].pages >= 1
    {
    }

    // ---- coalescing and returning ----

    /** The page map finds the left neighbour of a live span. */
    lemma LeftLookup(a: nat)
      requires FieldsExact() && Disjoint(h) && MapExact(pageMap, spans, h) && a in h
      ensures a == 0 || a - 1 !in pageMap || !pageMap[a - 1].isFree ==> LeftEdge(h, a) == a
      ensures a > 0 && a - 1 in pageMap && pageMap[a - 1].isFree ==>
                var left := pageMap[a - 1];
                && Live(left) && left != spans[a] && left.numPages == h[left.start].pages
                && FreeEndingAt(h, left.start, a) && LeftEdge(h, a) == left.start
    {
      assert InSpan(h, a, a);
      forall l: nat | FreeEndingAt(h, l, a)
        ensures a > 0 && a - 1 in pageMap && pageMap[a - 1] == spans[l]
      {
        assert InSpan(h, l, a - 1);
      }
      if a > 0 && a - 1 in pageMap && pageMap[a - 1].isFree {
        var l: nat :| InSpan(h, l, a - 1) && pageMap[a - 1] == spans[l];
        assert !InSpan(h, l, a);
        assert FreeEndingAt(h, l, a);
      }
    }

    /** The page map finds the right neighbour of a live span. */
    lemma RightLookup(a: nat)
      requires FieldsExact() && Disjoint(h) && MapExact(pageMap, spans, h) && a in h
      ensures var e := a + h[a].pages;
              if e in pageMap && pageMap[e].isFree then
                var right := pageMap[e];
                && Live(right) && right != spans[a] && right.start == e && h[e].free
                && right.numPages == h[e].pages && RightEdge(h, e) == e + h[e].pages
              else
                RightEdge(h, e) == e
    {
      var e := a + h[a].pages;
      assert e in h ==> InSpan(h, e, e);
      if e in pageMap && pageMap[e].isFree {
        var r: nat :| InSpan(h, r, e) && pageMap[e] == spans[r];
        if r < e {
          assert r <= e - 1;
          assert InSpan(h, a, e - 1) && InSpan(h, r, e - 1);
        }
      }
    }

    method MarkFree(span: Span)
      requires Inv({}) && Live(span) && !h[span.start].free
      modifies this`h, span`isFree, span`size
      ensures Inv({span.start}) && h == old(h)[span.start := SpanInfo(old(h[span.start]).pages, 0, true)]
    {
      hide MapExact, Disjoint, BucketsExact;
      ghost var info := SpanInfo(h[span.start].pages, 0, true);
      SamePages(pageMap, spans, h, span.start, info);
      BucketsPending(buckets, h, span.start, info);
      span.isFree := true;
      span.size := 0;
      h := h[span.start := info];
    }

    /** Two neighbouring spans cover fresh pages once both are gone. */
    lemma NeighbourFresh(h: Heap, a: nat, o: nat)
      requires Disjoint(h) && a in h && o in h && o != a && (o + h[o].pages == a || a + h[a].pages == o)
      ensures FreshPages(h - {a, o}, if o < a then o else a, h[o].pages + h[a].pages)
    {
      if o + h[o].pages == a {
        MergeFresh(h, o, a);
        assert h - {o, a} == h - {a, o};
      } else {
        MergeFresh(h, a, o);
      }
    }

    /** Removes a free neighbour and grows the pending span over its pages. */
    method Absorb(span: Span, other: Span, start: nat)
      requires Inv({span.start}) && Live(span) && SizedBut(h, span.start)
      requires h[span.start].free && h[span.start].size == 0
      requires Live(other) && other != span && h[other.start].free
      requires FreshPages(h - {span.start, other.start}, start, h[span.start].pages + h[other.start].pages)
      modifies this, freeLists, FreeSpans()
      ensures var a, o, n := old(span.start), old(other.start), old(h[span.start].pages + h[other.start].pages);
              && span.start == start && Inv({start}) && Live(span) && SizedBut(h, start)
              && h == (old(h) - {a, o})[start := SpanInfo(n, 0, true)]
              && spans == (old(spans) - {a, o})[start := span]
    {
      hide FieldsExact, ListsLinked, MapExact, Disjoint, BucketsExact, FreshPages;
      ghost var a, o := span.start, other.start;
      LiveFields(a);
      LiveFields(o);
      Reinsert(h, o, h[o].(free := false));
      RemoveFromFreeList(other, {a});
      Leave(other, {a}, {a});
      assert h == old(h) - {o};
      assert h - {a} == old(h) - {a, o} && spans - {a} == old(spans) - {a, o};
      Resize(span, start, span.numPages + other.numPages, {a}, {start});
    }

    /** Merges a pending free span with its free left neighbour. */
    method CoalesceLeft(span: Span)
      requires Inv({span.start}) && Live(span) && SizedBut(h, span.start)
      requires h[span.start].free && h[span.start].size == 0
      modifies this, freeLists, FreeSpans()
      ensures var a, lo := old(span.start), LeftEdge(old(h), old(span.start));
              && lo <= a && span.start == lo && Inv({lo}) && Live(span) && SizedBut(h, lo)
              && h == (if lo == a then old(h)
                       else (old(h) - {lo, a})[lo := SpanInfo(a - lo + old(h)[a].pages, 0, true)])
              && spans == (if lo == a then old(spans) else (old(spans) - {lo, a})[lo := span])
    {
      hide FieldsExact, ListsLinked, MapExact, Disjoint, BucketsExact, FreshPages, LeftEdge, RightEdge;
      ghost var a := span.start;
      LiveFields(a);
      LeftLookup(a);
      if span.start > 0 {
        var left := Lookup(span.start - 1);
        if left != null && left.isFree && left != span {
          NeighbourFresh(h, a, left.start);
          assert old(h) - {a, left.start} == old(h) - {left.start, a};
          assert old(spans) - {a, left.start} == old(spans) - {left.start, a};
          Absorb(span, left, left.start);
        }
      }
    }

    /** Merges a pending free span with its free right neighbour. */
    method CoalesceRight(span: Span)
      requires Inv({span.start}) && Live(span) && SizedBut(h, span.start)
      requires h[span.start].free && h[span.start].size == 0
      modifies this, freeLists, FreeSpans()
      ensures var a, e := old(span.start), old(span.start + h[span.start].pages);
              && span.start == a && Inv({a}) && Live(span) && SizedBut(h, a)
              && h == (if RightEdge(old(h), e) == e then old(h)
                       else (old(h) - {e})[a := SpanInfo(RightEdge(old(h), e) - a, 0, true)])
              && spans == (if RightEdge(old(h), e) == e then old(spans) else old(spans) - {e})
    {
      hide FieldsExact, ListsLinked, MapExact, Disjoint, BucketsExact, FreshPages, LeftEdge, RightEdge;
      ghost var a, e := span.start, span.start + h[span.start].pages;
      LiveFields(a);
      LivePages();
      RightLookup(a);
      var right := Lookup(span.start + span.numPages);
      if right != null && right.isFree && right != span {
        NeighbourFresh(h, a, e);
        Absorb(span, right, span.start);
        assert h == (old(h) - {e})[a := h[a]];
        assert spans == old(spans) - {e};
      }
    }

    method Coalesce(span: Span)
      requires Inv({span.start}) && Live(span) && SizedBut(h, span.start)
      requires h[span.start].free && h[span.start].size == 0
      modifies this, freeLists, FreeSpans()
      ensures var a := old(span.start);
              var lo, hi := LeftEdge(old(h), a), RightEdge(old(h), a + old(h)[a].pages);
              && span.start == lo && Inv({lo}) && Live(span) && SizedBut(h, lo)
              && lo <= a && a + old(h)[a].pages <= hi
              && h == Detach(old(h), a)[lo := SpanInfo(hi - lo, 0, true)]
      ensures forall x | x in h && x != span.start ::
                x != old(span.start) && x in old(h) && h[x] == old(h)[x] && spans[x] == old(spans)[x]
    {
      hide FieldsExact, ListsLinked, MapExact, Disjoint, BucketsExact, FreshPages, LeftEdge, RightEdge, SizedBut;
      EdgesApart(span.start);
      MergeBoth(h, span.start);
      CoalesceLeft(span);
      CoalesceRight(span);
    }

    lemma EdgesApart(a: nat)
      requires FieldsExact() && Disjoint(h) && a in h
      ensures var l, e := LeftEdge(h, a), a + h[a].pages; l <= a < e <= RightEdge(h, e)
      ensures spans.Keys == h.Keys
    {
    }

    /** Cuts MAX_PAGES off the front of a pending span and files them as a free span. */
    method CarveFront(span: Span) returns (front: Span)
      requires Inv({span.start}) && Live(span) && SizedBut(h, span.start)
      requires h[span.start] == SpanInfo(span.numPages, 0, true) && span.numPages > MAX_PAGES
      modifies this, freeLists, FreeSpans()
      ensures fresh(front)
      ensures var s, s' := old(span.start), old(span.start) + MAX_PAGES;
              && span.start == s' && span.numPages == old(span.numPages) - MAX_PAGES
              && Inv({s'}) && Live(span) && SizedBut(h, s')
              && h == (old(h) - {s})[s' := SpanInfo(span.numPages, 0, true)][s := SpanInfo(MAX_PAGES, 0, true)]
              && spans == (old(spans) - {s})[s' := span][s := front]
    {
      hide FieldsExact, ListsLinked, MapExact, Disjoint, BucketsExact, FreshPages, Carve;
      LivePages();
      CarveStep(h, span.start);
      front := new Span(span.start, MAX_PAGES, 0, true);
      ghost var s := span.start;
      Resize(span, span.start + MAX_PAGES, span.numPages - MAX_PAGES, {s}, {s + MAX_PAGES});
      Enter(front, {s + MAX_PAGES}, {s + MAX_PAGES, s});
      Insert(front, {s + MAX_PAGES, s}, {s + MAX_PAGES});
    }

    lemma KeptFrame(h0: Heap, spans0: map<nat, Span>, a: nat, span: Span, made: set<Span>, free0: set<Span>)
      requires Kept(h0, spans0, h, spans, a, span, made)
      requires forall x | x in h0 && h0[x].free && x in spans0 :: spans0[x] in free0
      ensures forall s | s in FreeSpans() :: s == span || s in made || s in free0
      ensures forall x | InUse(h, x) && x != a ::
                InUse(h0, x) && x in spans && x in spans0 && spans[x] == spans0[x]
    {
    }

    lemma KeptFirst(h0: Heap, spans0: map<nat, Span>, a: nat, span: Span)
      requires FieldsExact() && h0.Keys == spans0.Keys && span.start in h && h[span.start].free
      requires spans[span.start] == span
      requires forall x | x in h && x != span.start :: x in h0 && h[x] == h0[x] && spans[x] == spans0[x]
      ensures Kept(h0, spans0, h, spans, a, span, {})
    {
    }

    lemma Keys()
      requires FieldsExact()
      ensures h.Keys == spans.Keys
    {
    }

    /** The carving loop: files MAX_PAGES at a time until the rest fits a bucket. */
    method CarveAll(span: Span, ghost h0: Heap, ghost spans0: map<nat, Span>, ghost a: nat, ghost free0: set<Span>)
      returns (ghost made: set<Span>, ghost rounds: nat)
      requires Inv({span.start}) && Live(span) && SizedBut(h, span.start)
      requires h[span.start] == SpanInfo(span.numPages, 0, true) && span.numPages >= 1
      requires Kept(h0, spans0, h, spans, a, span, {})
      requires forall x | x in h0 && h0[x].free && x in spans0 :: spans0[x] in free0
      modifies this, freeLists, free0, span
      ensures Inv({span.start}) && Live(span) && SizedBut(h, span.start)
      ensures h[span.start] == SpanInfo(span.numPages, 0, true) && 1 <= span.numPages <= MAX_PAGES
      ensures Carve(h - {span.start}, span.start, span.numPages)
              == Carve(old(h) - {old(span.start)}, old(span.start), old(span.numPages))
      ensures span.numPages + rounds * MAX_PAGES == old(span.numPages)
      ensures fresh(made) && Kept(h0, spans0, h, spans, a, span, made)
    {
      hide FieldsExact, ListsLinked, MapExact, Disjoint, BucketsExact, Carve, Kept, FreshPages;
      rounds := 0;
      made := {};
      while span.numPages > MAX_PAGES
        invariant Inv({span.start}) && Live(span) && SizedBut(h, span.start)
        invariant h[span.start] == SpanInfo(span.numPages, 0, true) && span.numPages >= 1
        invariant Carve(h - {span.start}, span.start, span.numPages)
                  == Carve(old(h) - {old(span.start)}, old(span.start), old(span.numPages))
        invariant span.numPages + rounds * MAX_PAGES == old(span.numPages)
        invariant fresh(made) && Kept(h0, spans0, h, spans, a, span, made)
        decreases span.numPages
      {
        LivePages();
        CarveStep(h, span.start);
        KeptFrame(h0, spans0, a, span, made, free0);
        ghost var h1, spans1, s := h, spans, span.start;
        var front := CarveFront(span);
        KeptCarve(h0, spans0, h1, spans1, a, span, made, s, span.numPages, front);
        made := made + {front};
        rounds := rounds + 1;
      }
    }

    /** Marks a span free and merges it with its free neighbours. */
    method FreeAndMerge(span: Span)
      requires Valid() && Live(span) && !h[span.start].free
      modifies this, freeLists, FreeSpans(), span
      ensures Inv({span.start}) && Live(span) && SizedBut(h, span.start)
      ensures h[span.start] == SpanInfo(span.numPages, 0, true) && 1 <= span.numPages <= 3 * MAX_PAGES
      ensures Carve(h - {span.start}, span.start, span.numPages) == GiveBack(old(h), old(span.start))
      ensures Kept(old(h), old(spans), h, spans, old(span.start), span, {})
    {
      hide FieldsExact, ListsLinked, MapExact, Disjoint, BucketsExact, LeftEdge, RightEdge, Detach;
      hide Carve, Kept, GiveBack, FreshPages;
      ghost var a := span.start;
      Keys();
      LivePages();
      MarkedEdges(h, a);
      GiveBackSized(h, a);
      MarkFree(span);
      Coalesce(span);
      CarveFirst(old(h), a, h);
      LiveFields(span.start);
      KeptFirst(old(h), old(spans), a, span);
    }

    /** return_span: frees a span, merges it and carves what is too long for a bucket. */
    method ReturnSpan(span: Span?) returns (ghost rounds: nat)
      requires Valid() && (span != null ==> Live(span) && !h[span.start].free)
      modifies this, freeLists, FreeSpans(), span
      ensures Valid() && rounds <= 2
      ensures span == null ==> h == old(h) && spans == old(spans)
      ensures span != null ==> h == GiveBack(old(h), old(span.start))
      ensures forall x | InUse(h, x) && (span != null ==> x != old(span.start)) ::
                InUse(old(h), x) && spans[x] == old(spans)[x]
      ensures forall s | s in FreeSpans() :: s == span || fresh(s) || s in old(FreeSpans())
    {
      hide FieldsExact, ListsLinked, MapExact, Disjoint, BucketsExact, Carve, Kept, GiveBack;
      rounds := 0;
      Keys();
      if span == null { return; }
      ghost var a, free0 := span.start, FreeSpans();
      FreeAndMerge(span);
      ghost var made;
      made, rounds := CarveAll(span, old(h), old(spans), a, free0);
      CarveLast(h, span.start);
      KeptFrame(old(h), old(spans), a, span, made, free0);
      Insert(span, {span.start}, {});
    }

    // ---- allocation ----

    /** What list i holds, in terms of the abstract heap. */
    lemma BucketHead(i: nat)
      requires Valid() && i <= MAX_PAGES
      ensures freeLists.Length == MAX_PAGES + 1 == |buckets|
      ensures forall x | x in buckets[i] :: x in spans
      ensures Linked(Objects(spans, buckets[i]), freeLists[i])
      ensures forall s | s in Objects(spans, buckets[i]) :: s.size == 0
      ensures forall a | a in h && h[a].free && h[a].pages == i :: a in buckets[i] && buckets[i][0] <= a
      ensures |buckets[i]| > 0 ==>
                var a := buckets[i][0];
                a in h && h[a].free && h[a].pages == i && Live(spans[a]) && spans[a].start == a
                   && spans[a].numPages == i
    {
      forall a | a in h && h[a].free && h[a].pages == i
        ensures a in buckets[i] && buckets[i][0] <= a
      {
        var k :| 0 <= k < |buckets[i]| && buckets[i][k] == a;
      }
      forall s | s in Objects(spans, buckets[i])
        ensures s.size == 0
      {
        var k :| 0 <= k < |buckets[i]| && Objects(spans, buckets[i])[k] == s;
        assert buckets[i][k] in buckets[i];
      }
    }

    /** The span of list i whose object size is closest to `size`. */
    method ClosestSize(i: nat, size: uint32) returns (bestSpan: Span?)
      requires Valid() && i <= MAX_PAGES
      ensures bestSpan == if buckets[i] == [] || size == UINT32_MAX then null else spans[buckets[i][0]]
    {
      hide FieldsExact, ListsLinked, MapExact, Disjoint, BucketsExact, Sized, Ascending, Linked;
      BucketHead(i);
      bestSpan := null;
      var bestDiff := UINT32_MAX;
      var curr := freeLists[i];
      ghost var b, k := Objects(spans, buckets[i]), 0;
      while curr != null
        invariant 0 <= k <= |b| && curr == At(b, k)
        invariant bestSpan == if k == 0 || size == UINT32_MAX then null else b[0]
        invariant bestDiff == if k == 0 then UINT32_MAX else size
        decreases |b| - k
      {
        var diff := Distance(curr.size, size);
        if diff < bestDiff {
          bestDiff := diff;
          bestSpan := curr;
        }
        if diff == 0 { break; }
        curr := curr.next;
        k := k + 1;
      }
    }

    /** Takes a free span out of its bucket, for objects of `size`. */
    method Claim(span: Span, size: uint32)
      requires Valid() && Live(span) && h[span.start].free
      modifies this`h, this`buckets, freeLists, FreeSpans()`next, FreeSpans()`prev, FreeSpans()`isFree, span`size
      ensures Inv({}) && h == old(h)[span.start := SpanInfo(old(h[span.start]).pages, size, false)]
      ensures span.next == null && span.prev == null
    {
      hide FieldsExact, ListsLinked, MapExact, Disjoint, BucketsExact, Sized;
      Keys();
      LiveFields(span.start);
      SizedFacts(h);
      RemoveFromFreeList(span, {});
      SetSize(span, size);
    }

    /** Takes the chosen free span out of its bucket, for objects of `size`, and keeps `numPages`. */
    method TakeFree(span: Span, numPages: nat, size: uint32)
      requires Valid() && Live(span) && 1 <= numPages && Fits(h, span.start, numPages)
      modifies this, freeLists, FreeSpans()
      ensures Valid() && Live(span) && span.start == old(span.start)
      ensures h == TakeSpan(old(h), span.start, numPages, size)
      ensures span.next == null && span.prev == null
      ensures forall x | InUse(old(h), x) :: x in spans && spans[x] == old(spans)[x]
      ensures forall s | s in FreeSpans() :: fresh(s) || s in old(FreeSpans())
    {
      hide FieldsExact, ListsLinked, MapExact, Disjoint, BucketsExact, Sized, TakeSpan;
      Keys();
      LiveFields(span.start);
      SizedFacts(h);
      TakeSized(h, span.start, numPages, size);
      TakeSteps(h, span.start, numPages, size);
      Claim(span, size);
      LiveFields(span.start);
      if span.numPages > numPages {
        Split(span, numPages);
      }
    }

    /** The search of allocate_span: bucket by bucket from the requested length. */
    method FindFree(numPages: nat, size: uint32) returns (span: Span?)
      requires Valid() && 1 <= numPages <= MAX_PAGES
      ensures span == null <==> size == UINT32_MAX || !AnyFits(h, numPages)
      ensures span != null ==> Live(span) && BestFit(h, span.start, numPages)
    {
      hide FieldsExact, ListsLinked, MapExact, Disjoint, BucketsExact, Sized;
      for i := numPages to MAX_PAGES + 1
        invariant size != UINT32_MAX ==> forall b: nat | Fits(h, b, numPages) :: i <= h[b].pages
      {
        BucketHead(i);
        if freeLists[i] == null { continue; }
        span := ClosestSize(i, size);
        if span == null { continue; }
        LeastIsBest(h, span.start, numPages, i);
        return;
      }
      SizedFacts(h);
      return null;
    }

    method AllocateSpan(numPages: uint32, size: uint32, os: Option<nat>) returns (span: Span?)
      requires Valid()
      requires os.Some? ==> FreshPages(h, os.value, numPages)
      modifies this, freeLists, FreeSpans()
      ensures Valid()
      ensures !(1 <= numPages <= MAX_PAGES) ==> span == null
      ensures span == null ==> h == old(h) && spans == old(spans)
      ensures 1 <= numPages <= MAX_PAGES ==>
                (span == null <==> os.None? && (size == UINT32_MAX || !AnyFits(old(h), numPages)))
      ensures span != null && size != UINT32_MAX ==> Served(old(h), h, span.start, numPages, size, os)
      ensures span != null && size == UINT32_MAX ==>
                os == Some(span.start) && h == old(h)[span.start := SpanInfo(numPages, size, false)]
      ensures span != null ==> Live(span) && span.next == null && span.prev == null
      ensures span != null ==> fresh(span) || span in old(FreeSpans())
      ensures forall x | InUse(old(h), x) :: x in spans && spans[x] == old(spans)[x]
      ensures forall s | s in FreeSpans() :: fresh(s) || s in old(FreeSpans())
    {
      hide FieldsExact, ListsLinked, MapExact, Disjoint, BucketsExact, Sized, AnyFits;
      Keys();
      if numPages == 0 || numPages > MAX_PAGES { return null; }
      span := FindFree(numPages, size);
      if span != null {
        TakeFree(span, numPages, size);
        return;
      }
      if os.None? { return null; }
      LivePages();
      FreshStart(h, os.value, numPages);
      SizedAdd(h, os.value, SpanInfo(numPages, size, false));
      span := new Span(os.value, numPages, size, false);
      Enter(span, {}, {});
    }

    /** The span that holds an address, if any span does. */
    method SpanFor(ptr: nat) returns (span: Span?)
      requires Valid()
      ensures span == null <==> !Managed(h, ptr / PAGE_SIZE)
      ensures span != null ==> Live(span) && InSpan(h, span.start, ptr / PAGE_SIZE)
    {
      span := Lookup(ptr / PAGE_SIZE);
    }

    /** Gives a span's pages back to the OS; `unmapped` is what munmap reports. */
    method DeallocateSpan(span: Span?, unmapped: bool) returns (ok: bool)
      requires Valid() && (span != null ==> Live(span))
      modifies this, freeLists, FreeSpans()
      ensures Valid() && ok == (span != null && unmapped)
      ensures h == if span == null then old(h) else old(h) - {span.start}
      ensures spans == if span == null then old(spans) else old(spans) - {span.start}
    {
      hide FieldsExact, ListsLinked, MapExact, Disjoint, BucketsExact;
      if span == null { return false; }
      LiveFields(span.start);
      Reinsert(h, span.start, h[span.start].(free := false));
      if span.isFree {
        RemoveFromFreeList(span, {});
      }
      Leave(span, {}, {});
      return unmapped;
    }

    lemma UsedFacts(a: nat)
      requires Valid() && InUse(h, a)
      ensures a in spans && spans[a].start == a && spans[a].numPages == h[a].pages
      ensures spans[a] in spans.Values && spans[a] !in FreeSpans()
    {
    }

    lemma ValidFacts()
      requires Valid()
      ensures h.Keys == spans.Keys && ValidHeap(h)
    {
    }

    /** Writing what in-use spans keep for their owners (links, counters, list heads) does not
        concern the page heap. */
    twostate lemma OwnerWrites()
      requires old(Valid())
      requires h == old(h) && spans == old(spans) && buckets == old(buckets) && pageMap == old(pageMap)
      requires forall i | 0 <= i < freeLists.Length :: freeLists[i] == old(freeLists[i])
      requires forall s | s in spans.Values ::
                 && s.start == old(s.start) && s.numPages == old(s.numPages)
                 && s.size == old(s.size) && s.isFree == old(s.isFree)
      requires forall s | s in FreeSpans() :: s.next == old(s.next) && s.prev == old(s.prev)
      ensures Valid()
    {
      forall i | 0 <= i <= MAX_PAGES
        ensures Linked(Objects(spans, buckets[i]), freeLists[i])
      {
        assert old(Linked(Objects(spans, buckets[i]), freeLists[i]));
        ObjectsFree({}, i);
        assert forall k | 0 <= k < |Objects(spans, buckets[i])| ::
            Objects(spans, buckets[i])[k] in Objects(spans, buckets[i]);
      }
    }
  }
}
