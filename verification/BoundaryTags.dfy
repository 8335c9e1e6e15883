/** The old allocator (old/old_design.hpp): blocks with a header before and a footer behind their
    payload, a free list threaded through the headers, and a next-fit search. */
module BoundaryTags {
  import opened Sequences
  import opened Widths
  import opened PackedLists
  import opened BoundaryTagSpec
  import opened BoundaryTagLaws

  /** `next` links the free list. */
  datatype Header = Header(size: nat, isFree: bool, mapped: bool, next: Option<nat>)

  datatype Footer = Footer(size: nat, mapped: bool)

  type Headers = map<nat, Header>
  type Footers = map<nat, Footer>

  // ---- what memory says ----

  ghost predicate TagsAt(live: Live, headers: Headers, footers: Footers, b: nat) {
    && b in live && b in headers
    && headers[b].size == live[b].size && headers[b].isFree == live[b].free && headers[b].mapped == live[b].mapped
    && FooterAt(b, live[b].size) in footers
    && footers[FooterAt(b, live[b].size)] == Footer(live[b].size, live[b].mapped)
  }

  /** Header and footer of every live block agree with it, and so with each other. */
  ghost predicate Tagged(live: Live, headers: Headers, footers: Footers) {
    forall b | b in live :: TagsAt(live, headers, footers, b)
  }

  function After(free: seq<nat>, k: nat): Option<nat> {
    if k + 1 < |free| then Some(free[k + 1]) else None
  }

  ghost predicate LinkAt(headers: Headers, free: seq<nat>, k: nat)
    requires k < |free|
  {
    free[k] in headers && headers[free[k]].next == After(free, k)
  }

  /** The list from `head` runs through exactly the blocks of `free`, in order. */
  ghost predicate Chained(headers: Headers, head: Option<nat>, free: seq<nat>) {
    && head == (if free == [] then None else Some(free[0]))
    && forall k: nat | k < |free| :: LinkAt(headers, free, k)
  }

  /** The list holds exactly the free blocks, each once, but for the loose one. */
  ghost predicate Exact(live: Live, free: seq<nat>, loose: Option<nat>) {
    && Distinct(free)
    && forall b: nat :: b in free <==> IsFree(live, b) && loose != Some(b)
  }

  // ---- sums over the list ----

  ghost function Size(live: Live, b: nat): nat {
    if b in live then live[b].size else 0
  }

  ghost function FreeBytes(live: Live, free: seq<nat>): nat {
    if free == [] then 0 else Size(live, free[0]) + FreeBytes(live, free[1..])
  }

  lemma {:induction false} FreeBytesSame(live: Live, live': Live, free: seq<nat>)
    requires forall b | b in free :: Size(live', b) == Size(live, b)
    ensures FreeBytes(live', free) == FreeBytes(live, free)
  {
    if free != [] {
      assert free[0] in free && forall b | b in free[1..] :: b in free;
      FreeBytesSame(live, live', free[1..]);
    }
  }

  lemma {:induction false} FreeBytesDrop(live: Live, free: seq<nat>, k: nat)
    requires k < |free|
    ensures FreeBytes(live, Drop(free, k)) + Size(live, free[k]) == FreeBytes(live, free)
  {
    if k == 0 {
      assert Drop(free, k) == free[1..];
    } else {
      assert Drop(free, k)[1..] == Drop(free[1..], k - 1);
      FreeBytesDrop(live, free[1..], k - 1);
    }
  }

  /** When one block on the list changes its size, the sum changes by that. */
  lemma FreeBytesResize(live: Live, live': Live, free: seq<nat>, b: nat)
    requires Distinct(free) && b in free && forall x | x in free && x != b :: Size(live', x) == Size(live, x)
    ensures FreeBytes(live', free) + Size(live, b) == FreeBytes(live, free) + Size(live', b)
  {
    var k :| 0 <= k < |free| && free[k] == b;
    FreeBytesDrop(live, free, k);
    FreeBytesDrop(live', free, k);
    DropMembers(free, k);
    FreeBytesSame(live, live', Drop(free, k));
  }

  // ---- the list, block by block ----

  /** Where x is, or |s|. */
  ghost function IndexOf(s: seq<nat>, x: nat): (k: nat)
    ensures k <= |s| && (k < |s| ==> s[k] == x) && forall j | 0 <= j < k :: s[j] != x
  {
    if s == [] then 0 else if s[0] == x then 0 else 1 + IndexOf(s[1..], x)
  }

  ghost function Removed(s: seq<nat>, x: nat): seq<nat> {
    if IndexOf(s, x) < |s| then Drop(s, IndexOf(s, x)) else s
  }

  ghost function Before(s: seq<nat>, k: nat): Option<nat> {
    if 0 < k <= |s| then Some(s[k - 1]) else None
  }

  /** Where the last search counts as ended, once x has left the list. */
  ghost function EndWithout(end: Option<nat>, s: seq<nat>, x: nat): Option<nat> {
    if end == Some(x) && x in s then Before(s, IndexOf(s, x)) else end
  }

  /** The list once block b in use has come back: without the free block behind b, and with b at the
      head unless it melts into the free block before it. */
  ghost function Relisted(live: Live, free: seq<nat>, b: nat): seq<nat>
    requires b in live
  {
    var e := End(b, live[b].size);
    (if Left(live, b) == b then [b] else []) + if IsFree(live, e) then Removed(free, e) else free
  }

  ghost function EndRelisted(live: Live, end: Option<nat>, free: seq<nat>, b: nat): Option<nat>
    requires b in live
  {
    var e := End(b, live[b].size);
    if IsFree(live, e) then EndWithout(end, free, e) else end
  }

  /** The list once n bytes were taken from the block at place k. */
  ghost function TakenList(live: Live, free: seq<nat>, k: nat, n: nat): seq<nat>
    requires k < |free|
  {
    if Splits(live, free[k], n) then free[k := End(free[k], n)] else Drop(free, k)
  }

  /** Block x has left the list `was`: a search that ended on x, at place k, counts as ended on the block at place
      k - 1, on none when x was the head; any other search ended where it did. */
  ghost predicate EndMoved(was: seq<nat>, x: nat, end: Option<nat>, end': Option<nat>) {
    && (end != Some(x) || x !in was ==> end' == end)
    && forall k: nat | k < |was| && was[k] == x && end == Some(x) :: end' == if k == 0 then None else Some(was[k - 1])
  }

  /** The list without block x, which may not be on it: the others stay in order. */
  ghost predicate WithoutBlock(was: seq<nat>, x: nat, free: seq<nat>) {
    && (x !in was ==> free == was)
    && forall k: nat | k < |was| && was[k] == x :: free == was[..k] + was[k + 1..]
  }

  lemma EndWithoutPlace(end: Option<nat>, s: seq<nat>, x: nat)
    requires Distinct(s)
    ensures EndMoved(s, x, end, EndWithout(end, s, x)) && WithoutBlock(s, x, Removed(s, x))
  {
    forall k: nat | k < |s| && s[k] == x
      ensures IndexOf(s, x) == k
    {
      IndexUnique(s, k);
    }
  }

  /** Block b in use has come back: the free block behind it, if any, left the list, and b heads the list
      unless a free block ends where b starts. */
  ghost predicate Rejoined(live: Live, was: seq<nat>, b: nat, end: Option<nat>, free: seq<nat>, end': Option<nat>)
    requires b in live
  {
    var e, melts := b + OVERHEAD + live[b].size, exists l: nat :: FreeEndingAt(live, l, b);
    && (!melts ==> free != [] && free[0] == b)
    && var rest := if melts then free else free[1..];
       if IsFree(live, e) then WithoutBlock(was, e, rest) && EndMoved(was, e, end, end')
       else rest == was && end' == end
  }

  /** What deallocating block b does to the list `was` and to where the last search counts as ended. */
  ghost predicate Delisted(live: Live, hi: nat, was: seq<nat>, b: nat, end: Option<nat>,
                           free: seq<nat>, end': Option<nat>)
    requires b in live
  {
    var inside := !live[b].mapped && b + OVERHEAD + live[b].size != hi;
    if live[b].free then
      && EndMoved(was, b, end, end')
      && if inside then free != [] && free[0] == b && WithoutBlock(was, b, free[1..]) else WithoutBlock(was, b, free)
    else if inside then Rejoined(live, was, b, end, free, end')
    else free == was && end' == end
  }

  lemma RelistedPlace(live: Live, was: seq<nat>, b: nat, end: Option<nat>)
    requires b in live && Distinct(was)
    ensures Rejoined(live, was, b, end, Relisted(live, was, b), EndRelisted(live, end, was, b))
  {
    EndWithoutPlace(end, was, End(b, live[b].size));
  }

  /** A free block in a coalesced heap has no free neighbours: it only moves to the head of the list. */
  lemma DelistedPlace(live: Live, hi: nat, was: seq<nat>, b: nat, end: Option<nat>)
    requires b in live && Coalesced(live) && Distinct(was)
    requires live[b].free || b !in was
    ensures var claimed, list, end1 := Claimed(live, b), Removed(was, b), EndWithout(end, was, b);
            if live[b].mapped || End(b, live[b].size) == hi then Delisted(live, hi, was, b, end, list, end1)
            else Delisted(live, hi, was, b, end, Relisted(claimed, list, b), EndRelisted(claimed, end1, list, b))
  {
    EndWithoutPlace(end, was, b);
    if live[b].free {
      if l: nat :| FreeEndingAt(Claimed(live, b), l, b) { assert FreePair(live, l, b); }
      if IsFree(live, End(b, live[b].size)) { assert FreePair(live, b, End(b, live[b].size)); }
    } else {
      assert Claimed(live, b) == live;
      NothingRemoved(end, was, b);
      RelistedPlace(live, was, b, end);
    }
  }

  /** Once n bytes were taken from the block at place k, the rest of it stands at that place, or the list is
      without the block when it was not cut. */
  ghost predicate TakenPlace(live: Live, was: seq<nat>, k: nat, n: nat, free: seq<nat>) {
    && k < |was| && was[k] in live
    && if live[was[k]].size > n + OVERHEAD then
         |free| == |was| && free[k] == was[k] + OVERHEAD + n && forall j | 0 <= j < |was| && j != k :: free[j] == was[j]
       else
         free == was[..k] + was[k + 1..]
  }

  lemma TakenListPlace(live: Live, was: seq<nat>, k: nat, n: nat)
    requires k < |was| && was[k] in live
    ensures TakenPlace(live, was, k, n, TakenList(live, was, k, n))
  {
  }

  lemma NothingRemoved(end: Option<nat>, s: seq<nat>, x: nat)
    requires x !in s
    ensures Removed(s, x) == s && EndWithout(end, s, x) == end
  {
  }

  lemma IndexUnique(s: seq<nat>, k: nat)
    requires Distinct(s) && k < |s|
    ensures IndexOf(s, s[k]) == k
  {
  }

  // ---- the search loop ----

  /** Where the search loop is: about to look at `curr`, or out of the loop with a block that fits or
      without one. */
  datatype Walk = Going(prev: Option<nat>, curr: Option<nat>) | Fitting(prev: Option<nat>, block: nat) | Exhausted

  ghost function FirstLook(headers: Headers, head: Option<nat>, end: Option<nat>): Walk {
    if end.Some? && end.value in headers && headers[end.value].next.Some? then Going(end, headers[end.value].next)
    else Going(None, head)
  }

  /** One round of the loop, for n bytes; `end` is where the last search ended. */
  ghost function Round(headers: Headers, head: Option<nat>, end: Option<nat>, n: nat, w: Walk): Walk {
    if !w.Going? then w
    else if w.curr.None? || w.curr.value !in headers then Exhausted
    else
      var h := headers[w.curr.value];
      if h.isFree && h.size >= n then Fitting(w.prev, w.curr.value)
      else if end.Some? && h.next.None? then Going(None, head)
      else if end.Some? && end.value in headers && h.next == headers[end.value].next then Exhausted
      else Going(w.curr, h.next)
  }

  ghost function Rounds(headers: Headers, head: Option<nat>, end: Option<nat>, n: nat, k: nat): Walk {
    if k == 0 then FirstLook(headers, head, end) else Round(headers, head, end, n, Rounds(headers, head, end, n, k - 1))
  }

  // ---- writes to the tags ----

  /** Footers of different blocks lie at different places. */
  lemma FootersApart(live: Live, b: nat, c: nat)
    requires Disjoint(live) && b in live && c in live && b != c
    ensures FooterAt(b, live[b].size) != FooterAt(c, live[c].size)
  {
    assert Inside(live, b, FooterAt(b, live[b].size)) && Inside(live, c, FooterAt(c, live[c].size));
  }

  /** Links and flags may change in the headers of any blocks the new value agrees with. */
  lemma TaggedByHeaders(live: Live, headers: Headers, footers: Footers, live': Live, headers': Headers, b: nat)
    requires Tagged(live, headers, footers) && b in live
    requires b in live' && live' == live[b := live[b].(free := live'[b].free)]
    requires forall c | c in live ::
        c in headers' && headers'[c].size == headers[c].size && headers'[c].mapped == headers[c].mapped
    requires forall c | c in live' :: c in headers' && headers'[c].isFree == live'[c].free
    ensures Tagged(live', headers', footers)
  {
    forall c | c in live'
      ensures TagsAt(live', headers', footers, c)
    {
      assert TagsAt(live, headers, footers, c);
    }
  }

  /** Taking one block off the list: its predecessor, or the head, takes over its link. */
  lemma ChainDrop(headers: Headers, head: Option<nat>, free: seq<nat>, k: nat, headers': Headers)
    requires Chained(headers, head, free) && Distinct(free) && k < |free|
    requires forall b | b in headers && b != free[k] && (k == 0 || b != free[k - 1]) ::
        b in headers' && headers'[b].next == headers[b].next
    requires k > 0 ==> free[k - 1] in headers' && headers'[free[k - 1]].next == After(free, k)
    ensures Chained(headers', if k == 0 then After(free, 0) else head, Drop(free, k))
  {
    var rest := Drop(free, k);
    assert LinkAt(headers, free, k);
    forall j: nat | j < |rest|
      ensures LinkAt(headers', rest, j)
    {
      var i := if j < k then j else j + 1;
      assert rest[j] == free[i] && LinkAt(headers, free, i);
      assert free[i] != free[k] && (i != k - 1 && k > 0 ==> free[i] != free[k - 1]);
    }
  }

  lemma ChainPush(headers: Headers, head: Option<nat>, free: seq<nat>, b: nat, headers': Headers)
    requires Chained(headers, head, free) && b !in free
    requires b in headers' && headers'[b].next == head
    requires forall c | c in headers && c != b :: c in headers' && headers'[c].next == headers[c].next
    ensures Chained(headers', Some(b), [b] + free)
  {
    var list := [b] + free;
    forall j: nat | j < |list|
      ensures LinkAt(headers', list, j)
    {
      if j > 0 {
        assert LinkAt(headers, free, j - 1) && free[j - 1] in free;
      }
    }
  }

  lemma ExactDrop(live: Live, free: seq<nat>, loose: Option<nat>, k: nat)
    requires Exact(live, free, loose) && k < |free|
    ensures free[k] in live && Exact(live[free[k] := live[free[k]].(free := false)], Drop(free, k), loose)
    ensures forall x: nat :: x in Drop(free, k) <==> x in free && x != free[k]
    ensures k > 0 ==> free[k - 1] in free && free[k - 1] != free[k]
  {
    assert free[k] in free;
    DropMembers(free, k);
  }

  lemma ExactPush(live: Live, free: seq<nat>, b: nat)
    requires Exact(live, free, Some(b)) && IsFree(live, b)
    ensures Exact(live, [b] + free, None)
  {
    assert forall j | 0 <= j < |free| :: free[j] in free;
  }

  lemma ChainSame(headers: Headers, head: Option<nat>, free: seq<nat>, headers': Headers)
    requires Chained(headers, head, free)
    requires forall b | b in headers :: b in headers' && headers'[b].next == headers[b].next
    ensures Chained(headers', head, free)
  {
    forall k: nat | k < |free|
      ensures LinkAt(headers', free, k)
    {
      assert LinkAt(headers, free, k);
    }
  }

  lemma TaggedMerge(live: Live, lo: nat, hi: nat, headers: Headers, footers: Footers, l: nat, r: nat)
    requires Tagged(live, headers, footers) && ValidLive(live, lo, hi)
    requires l in live && r in live && l != r && End(l, live[l].size) == r && l in headers
    ensures var n := live[l].size + OVERHEAD + live[r].size;
            Tagged(Merged(live, l, r), headers[l := headers[l].(size := n)],
                   footers[FooterAt(l, n) := Footer(n, live[l].mapped)])
  {
    var n := live[l].size + OVERHEAD + live[r].size;
    var live', headers', footers' := Merged(live, l, r), headers[l := headers[l].(size := n)],
                                     footers[FooterAt(l, n) := Footer(n, live[l].mapped)];
    forall c | c in live'
      ensures TagsAt(live', headers', footers', c)
    {
      assert TagsAt(live, headers, footers, c);
      if c != l { FootersApart(live, c, r); }
    }
  }

  lemma ExactMerge(live: Live, free: seq<nat>, loose: Option<nat>, l: nat, r: nat)
    requires Exact(live, free, loose) && l in live && r in live && l != r && r !in free
    ensures Exact(Merged(live, l, r), free, loose)
  {
  }

  /** A merge adds the absorbed block to the sum when it is into a block on the list. */
  lemma FreeBytesMerge(live: Live, free: seq<nat>, l: nat, r: nat)
    requires Distinct(free) && l in live && r in live && l != r && r !in free
    ensures FreeBytes(Merged(live, l, r), free)
            == FreeBytes(live, free) + if l in free then OVERHEAD + live[r].size else 0
  {
    if l in free {
      FreeBytesResize(live, Merged(live, l, r), free, l);
    } else {
      FreeBytesSame(live, Merged(live, l, r), free);
    }
  }

  /** A block that leaves use is free and not yet on the list. */
  lemma ExactLoose(live: Live, free: seq<nat>, b: nat)
    requires Exact(live, free, None) && InUse(live, b)
    ensures Exact(live[b := live[b].(free := true)], free, Some(b))
  {
  }

  lemma MarkTagged(live: Live, headers: Headers, footers: Footers, b: nat)
    requires Tagged(live, headers, footers) && b in live && b in headers
    ensures Tagged(live[b := live[b].(free := true)], headers[b := headers[b].(isFree := true, next := None)], footers)
  {
    var live', headers' := live[b := live[b].(free := true)], headers[b := headers[b].(isFree := true, next := None)];
    forall c | c in live
      ensures c in headers' && headers'[c].size == headers[c].size && headers'[c].mapped == headers[c].mapped
      ensures headers'[c].isFree == live'[c].free
    {
      assert TagsAt(live, headers, footers, c);
    }
    TaggedByHeaders(live, headers, footers, live', headers', b);
  }

  /** The header of a block that is not on the list does not matter to it. */
  lemma ChainOff(headers: Headers, head: Option<nat>, free: seq<nat>, b: nat, headers': Headers)
    requires Chained(headers, head, free) && b !in free
    requires forall c | c in headers && c != b :: c in headers' && headers'[c].next == headers[c].next
    ensures Chained(headers', head, free)
  {
    forall k: nat | k < |free|
      ensures LinkAt(headers', free, k)
    {
      assert LinkAt(headers, free, k) && free[k] in free;
    }
  }

  // ---- creating and giving up ----

  lemma TaggedCreate(live: Live, headers: Headers, footers: Footers, a: nat, i: Info, next: Option<nat>)
    requires Tagged(live, headers, footers) && FreshBytes(live, a, OVERHEAD + i.size)
    ensures Tagged(live[a := i], headers[a := Header(i.size, i.free, i.mapped, next)],
                   footers[FooterAt(a, i.size) := Footer(i.size, i.mapped)])
  {
    var live', headers', footers' := live[a := i], headers[a := Header(i.size, i.free, i.mapped, next)],
                                     footers[FooterAt(a, i.size) := Footer(i.size, i.mapped)];
    forall c | c in live'
      ensures TagsAt(live', headers', footers', c)
    {
      if c != a {
        assert TagsAt(live, headers, footers, c);
        assert Inside(live, c, FooterAt(c, live[c].size));
      }
    }
  }

  lemma TaggedRemove(live: Live, headers: Headers, footers: Footers, b: nat)
    requires Tagged(live, headers, footers)
    ensures Tagged(live - {b}, headers, footers)
  {
    forall c | c in live - {b}
      ensures TagsAt(live - {b}, headers, footers, c)
    {
      assert TagsAt(live, headers, footers, c);
    }
  }

  lemma ExactCreate(live: Live, free: seq<nat>, a: nat, i: Info)
    requires Exact(live, free, None) && a !in live
    ensures Exact(live[a := i], free, if i.free then Some(a) else None)
    ensures a !in free && FreeBytes(live[a := i], free) == FreeBytes(live, free)
  {
    assert a !in free;
    FreeBytesSame(live, live[a := i], free);
  }

  lemma ExactRemove(live: Live, free: seq<nat>, b: nat)
    requires Exact(live, free, None) && InUse(live, b)
    ensures Exact(live - {b}, free, None) && FreeBytes(live - {b}, free) == FreeBytes(live, free)
  {
    FreeBytesSame(live, live - {b}, free);
  }

  // ---- splitting ----

  lemma ChainInsert(headers: Headers, head: Option<nat>, free: seq<nat>, k: nat, x: nat, headers': Headers)
    requires Chained(headers, head, free) && Distinct(free) && k < |free| && x !in free
    requires free[k] in headers' && headers'[free[k]].next == Some(x)
    requires x in headers' && headers'[x].next == After(free, k)
    requires forall c | c in headers && c != free[k] && c != x :: c in headers' && headers'[c].next == headers[c].next
    ensures Chained(headers', head, InsertAt(free, k + 1, x))
  {
    var list := InsertAt(free, k + 1, x);
    forall j: nat | j < |list|
      ensures LinkAt(headers', list, j)
    {
      if j != k + 1 {
        var i := if j <= k then j else j - 1;
        assert list[j] == free[i] && LinkAt(headers, free, i) && free[i] in free;
        assert i != k ==> free[i] != free[k];
      }
    }
  }

  lemma FreeBytesInsert(live: Live, free: seq<nat>, k: nat, x: nat)
    requires k < |free|
    ensures FreeBytes(live, InsertAt(free, k + 1, x)) == FreeBytes(live, free) + Size(live, x)
  {
    var t := InsertAt(free, k + 1, x);
    assert Drop(t, k + 1) == free;
    FreeBytesDrop(live, t, k + 1);
  }

  lemma ExactSplit(live: Live, free: seq<nat>, k: nat, n: nat)
    requires Exact(live, free, None) && k < |free| && Splits(live, free[k], n) && End(free[k], n) !in live
    ensures Exact(Split(live, free[k], n), InsertAt(free, k + 1, End(free[k], n)), None)
    ensures End(free[k], n) !in free && IsFree(live, free[k])
  {
    assert free[k] in free;
    InsertMembers(free, k + 1, End(free[k], n));
  }

  lemma TaggedSplit(live: Live, lo: nat, hi: nat, headers: Headers, footers: Footers, b: nat, n: nat,
                    headers': Headers, footers': Footers)
    requires Tagged(live, headers, footers) && ValidLive(live, lo, hi) && IsFree(live, b) && Splits(live, b, n)
             && End(b, n) !in live
    requires var x, m := End(b, n), live[b].size - n - OVERHEAD;
             && b in headers && b in headers' && headers'[b] == headers[b].(size := n, next := headers'[b].next)
             && x in headers' && headers'[x] == Header(m, true, live[b].mapped, headers'[x].next)
             && headers' == headers[b := headers'[b]][x := headers'[x]]
             && footers' == footers[FooterAt(b, n) := Footer(n, live[b].mapped)]
                                 [FooterAt(x, m) := Footer(m, live[b].mapped)]
    ensures Tagged(Split(live, b, n), headers', footers')
  {
    var live', x := Split(live, b, n), End(b, n);
    forall c | c in live'
      ensures TagsAt(live', headers', footers', c)
    {
      if c != x {
        assert TagsAt(live, headers, footers, c);
        if c != b {
          assert Inside(live, c, FooterAt(c, live[c].size));
          assert Inside(live, b, FooterAt(b, n)) && Inside(live, b, FooterAt(b, live[b].size));
        }
      }
    }
  }

  // ---- the class ----

  datatype Found = Hit(prev: Option<nat>, curr: nat) | Miss | Endless

  datatype Allocation = Memory(ptr: nat) | Failed | Hangs

  class OldAllocator {
    var headers: Headers
    var footers: Footers
    var freeList: Option<nat>
    var prevSearchEnd: Option<nat>
    var availableBytes: nat
    var heapStart: Option<nat>
    var heapEnd: Option<nat>

    ghost var live: Live
    ghost var free: seq<nat>
    ghost var lo: nat
    ghost var hi: nat

    /** Everything but the sum, with one free block that may be off the list. */
    ghost predicate Shape(loose: Option<nat>)
      reads this
    {
      && ValidLive(live, lo, hi) && Tagged(live, headers, footers)
      && Chained(headers, freeList, free) && Exact(live, free, loose)
      && (prevSearchEnd.Some? ==> prevSearchEnd.value in free)
      && (heapStart.Some? <==> heapEnd.Some?)
      && (heapStart.Some? ==> heapStart.value == lo && heapEnd.value == hi)
      && (heapStart.None? ==> lo == hi)
    }

    ghost predicate Valid()
      reads this
    {
      Shape(None) && Coalesced(live) && availableBytes == FreeBytes(live, free)
    }

    // ---- physical neighbours ----

    /** Header and footer of a block that keeps its place. */
    method WriteFooter(b: nat)
      requires b in headers
      modifies this`footers
      ensures footers == old(footers)[FooterAt(b, headers[b].size) := Footer(headers[b].size, headers[b].mapped)]
    {
      footers := footers[FooterAt(b, headers[b].size) := Footer(headers[b].size, headers[b].mapped)];
    }

    /** The block behind b in the heap. */
    method NextPhys(b: nat) returns (next: Option<nat>)
      requires ValidLive(live, lo, hi) && Tagged(live, headers, footers) && b in live && !live[b].mapped
      requires heapEnd == Some(hi)
      ensures next == if End(b, live[b].size) < hi then Some(End(b, live[b].size)) else None
      ensures next.Some? ==> next.value in live && !live[next.value].mapped
    {
      assert TagsAt(live, headers, footers, b);
      NextBlock(live, lo, hi, b);
      if headers[b].mapped { return None; }
      var at := End(b, headers[b].size);
      if heapEnd.None? || at >= heapEnd.value { return None; }
      return Some(at);
    }

    /** The block before b in the heap, found through its footer. */
    method PrevPhys(b: nat) returns (prev: Option<nat>)
      requires ValidLive(live, lo, hi) && Tagged(live, headers, footers) && b in live && !live[b].mapped
      requires heapStart == Some(lo)
      ensures prev.None? <==> b == lo
      ensures prev.Some? ==>
          prev.value in live && !live[prev.value].mapped && End(prev.value, live[prev.value].size) == b
    {
      assert TagsAt(live, headers, footers, b);
      NextBlock(live, lo, hi, b);
      if headers[b].mapped || heapStart.None? { return None; }
      ghost var p := lo;
      if lo < b {
        p := PrevBlock(live, lo, hi, b);
        assert TagsAt(live, headers, footers, p);
      }
      if b <= heapStart.value + HEADER_SIZE { return None; }
      var footer := footers[b - FOOTER_SIZE];
      var at: nat := b - (OVERHEAD + footer.size);
      if at < heapStart.value { return None; }
      return if headers[at].mapped == footer.mapped then Some(at) else None;
    }

    // ---- the free list ----

    /** Puts the loose block at the head of the list. */
    method InsertFree(b: nat)
      requires Shape(Some(b)) && IsFree(live, b)
      modifies this`headers, this`freeList, this`free
      ensures Shape(None) && free == [b] + old(free)
    {
      hide ValidLive, TagsAt;
      assert TagsAt(live, headers, footers, b);
      InHeaders(live, headers, footers, b);
      ghost var before := headers;
      headers := headers[b := headers[b].(next := freeList)];
      freeList := Some(b);
      free := [b] + free;
      TaggedLink(live, before, footers, headers, b);
      ChainPush(before, old(freeList), old(free), b, headers);
      ExactPush(live, old(free), b);
    }

    lemma InHeaders(live: Live, headers: Headers, footers: Footers, b: nat)
      requires TagsAt(live, headers, footers, b)
      ensures b in headers && b in live && headers[b].size == live[b].size && headers[b].isFree == live[b].free
      ensures headers[b].mapped == live[b].mapped
    {
    }

    /** A new link in one header changes no tag. */
    lemma TaggedLink(live: Live, headers: Headers, footers: Footers, headers': Headers, b: nat)
      requires Tagged(live, headers, footers) && b in headers && b in headers' && headers' == headers[b := headers'[b]]
      requires headers'[b] == headers[b].(next := headers'[b].next)
      ensures Tagged(live, headers', footers)
    {
      forall c | c in live
        ensures TagsAt(live, headers', footers, c)
      {
        assert TagsAt(live, headers, footers, c);
      }
    }

    /** Walks the list to b, remembering the block before. */
    method Locate(b: nat) returns (found: bool, prev: Option<nat>, ghost k: nat)
      requires Chained(headers, freeList, free) && Distinct(free)
      ensures found <==> b in free
      ensures found ==> k < |free| && free[k] == b && prev == if k > 0 then Some(free[k - 1]) else None
    {
      var curr := freeList;
      prev, k := None, 0;
      while curr.Some? && curr.value != b
        invariant k <= |free| && curr == (if k < |free| then Some(free[k]) else None)
        invariant prev == (if k > 0 then Some(free[k - 1]) else None)
        invariant forall j | 0 <= j < k :: free[j] != b
        decreases |free| - k
      {
        assert LinkAt(headers, free, k);
        prev := curr;
        curr := headers[curr.value].next;
        k := k + 1;
      }
      found := curr.Some?;
    }

    /** Lets the block before b, or the head, link past b, and clears b's header. */
    method Bypass(b: nat, prev: Option<nat>)
      requires b in headers && (prev.Some? ==> prev.value in headers && prev.value != b)
      modifies this`headers, this`freeList
      ensures b in headers && headers[b] == old(headers)[b].(isFree := false, next := None)
      ensures forall c | c in old(headers) && c != b ::
                c in headers && headers[c] ==
                  old(headers)[c].(next := if prev == Some(c) then old(headers)[b].next else old(headers)[c].next)
      ensures freeList == if prev.Some? then old(freeList) else old(headers)[b].next
    {
      if prev.Some? {
        headers := headers[prev.value := headers[prev.value].(next := headers[b].next)];
      } else {
        freeList := headers[b].next;
      }
      headers := headers[b := headers[b].(isFree := false, next := None)];
    }

    /** Takes a block off the list; a search that ended on it ends on its predecessor. */
    method UnlinkFree(b: nat, ghost loose: Option<nat>) returns (ok: bool, ghost k: nat)
      requires Shape(loose) && b in live
      modifies this`headers, this`freeList, this`prevSearchEnd, this`live, this`free
      ensures ok <==> b in old(free)
      ensures !ok ==> unchanged(this)
      ensures ok ==> Shape(loose) && live == old(live)[b := old(live)[b].(free := false)]
      ensures ok ==> k < |old(free)| && old(free)[k] == b && free == Drop(old(free), k) == Removed(old(free), b)
      ensures ok ==> prevSearchEnd == if old(prevSearchEnd) != Some(b) then old(prevSearchEnd)
                                      else if k == 0 then None else Some(old(free)[k - 1])
      ensures prevSearchEnd == EndWithout(old(prevSearchEnd), old(free), b)
    {
      hide ValidLive, Tagged, Drop, Distinct, Exact, Chained, IndexOf;
      ExactList(live, free, loose);
      var prev;
      ok, prev, k := Locate(b);
      if !ok { return; }
      IndexUnique(free, k);
      ghost var before, list := headers, free;
      assert LinkAt(headers, free, k) && (k > 0 ==> LinkAt(headers, free, k - 1) && free[k - 1] != b) by {
        Neighbours(headers, freeList, free, k);
      }
      Bypass(b, prev);
      if prevSearchEnd == Some(b) { prevSearchEnd := prev; }
      live := live[b := live[b].(free := false)];
      free := Drop(free, k);
      ExactDrop(old(live), list, loose, k);
      ChainDrop(before, old(freeList), list, k, headers);
      UnlinkShape(old(live), before, footers, live, headers, b);
      MarkLaws(old(live), lo, hi, b, false);
    }

    lemma ExactList(live: Live, free: seq<nat>, loose: Option<nat>)
      requires Exact(live, free, loose)
      ensures Distinct(free)
    {
    }

    lemma Neighbours(headers: Headers, head: Option<nat>, free: seq<nat>, k: nat)
      requires Chained(headers, head, free) && Distinct(free) && k < |free|
      ensures LinkAt(headers, free, k) && (k > 0 ==> LinkAt(headers, free, k - 1) && free[k - 1] != free[k])
    {
    }

    lemma UnlinkShape(live: Live, headers: Headers, footers: Footers, live': Live, headers': Headers, b: nat)
      requires Tagged(live, headers, footers) && b in live && live' == live[b := live[b].(free := false)]
      requires b in headers
      requires forall c | c in headers && c != b ::
          c in headers' && headers'[c] == headers[c].(next := headers'[c].next)
      requires b in headers' && headers'[b] == headers[b].(isFree := false, next := None)
      ensures Tagged(live', headers', footers)
    {
      forall c | c in live
        ensures c in headers' && headers'[c].size == headers[c].size && headers'[c].mapped == headers[c].mapped
        ensures headers'[c].isFree == live'[c].free
      {
        assert TagsAt(live, headers, footers, c);
      }
      TaggedByHeaders(live, headers, footers, live', headers', b);
    }

    // ---- merging ----

    /** Grows block l over its neighbour r. */
    method Absorb(l: nat, r: nat, ghost loose: Option<nat>)
      requires Shape(loose) && l in live && r in live && l != r && !live[l].mapped && !live[r].mapped
      requires End(l, live[l].size) == r && r !in free
      modifies this`headers, this`footers, this`availableBytes, this`live
      ensures Shape(loose) && live == Merged(old(live), l, r)
      ensures availableBytes == old(availableBytes) + OVERHEAD
    {
      hide ValidLive, Tagged, Chained, Exact;
      TagsOf(l);
      TagsOf(r);
      TaggedMerge(live, lo, hi, headers, footers, l, r);
      ExactMerge(live, free, loose, l, r);
      MergeLaws(live, lo, hi, l, r);
      ghost var before := headers;
      headers := headers[l := headers[l].(size := headers[l].size + OVERHEAD + headers[r].size)];
      WriteFooter(l);
      availableBytes := availableBytes + OVERHEAD;
      ChainSame(before, freeList, free, headers);
      live := Merged(live, l, r);
    }

    lemma TagsOf(b: nat)
      requires Tagged(live, headers, footers) && b in live
      ensures b in headers && headers[b].size == live[b].size
      ensures headers[b].isFree == live[b].free && headers[b].mapped == live[b].mapped
    {
      assert TagsAt(live, headers, footers, b);
    }

    /** The sum, when one free block may be off the list. */
    ghost predicate Accounted(loose: Option<nat>)
      reads this
    {
      availableBytes == FreeBytes(live, free) + if loose.Some? then Size(live, loose.value) else 0
    }

    lemma ListFacts(loose: Option<nat>)
      requires Exact(live, free, loose)
      ensures Distinct(free)
      ensures forall b: nat :: b in free <==> IsFree(live, b) && loose != Some(b)
    {
    }

    /** Merges the loose block b into the free block before it. */
    method MergePrev(p: nat, b: nat)
      requires Shape(Some(b)) && Accounted(Some(b)) && IsFree(live, p) && IsFree(live, b)
      requires End(p, live[p].size) == b && !live[p].mapped && !live[b].mapped
      modifies this`headers, this`footers, this`availableBytes, this`live
      ensures Shape(None) && Accounted(None) && live == Merged(old(live), p, b)
    {
      hide ValidLive, Tagged, Chained, Exact, FreeBytes;
      ListFacts(Some(b));
      FreeBytesMerge(live, free, p, b);
      Absorb(p, b, Some(b));
      LooseGone(live, free, b);
    }

    lemma LooseGone(live: Live, free: seq<nat>, b: nat)
      requires Exact(live, free, Some(b)) && b !in live
      ensures Exact(live, free, None)
    {
    }

    /** Takes the free block n off the list and merges it into the free block before it. */
    method MergeNext(o: nat, n: nat, ghost loose: Option<nat>)
      requires Shape(loose) && Accounted(loose) && IsFree(live, o) && IsFree(live, n) && loose != Some(n)
      requires End(o, live[o].size) == n && !live[o].mapped && !live[n].mapped && (loose.Some? ==> loose == Some(o))
      modifies this`headers, this`footers, this`freeList, this`prevSearchEnd, this`availableBytes, this`live, this`free
      ensures Shape(loose) && Accounted(loose) && live == Merged(old(live), o, n)
      ensures free == Removed(old(free), n) && prevSearchEnd == EndWithout(old(prevSearchEnd), old(free), n)
      ensures WithoutBlock(old(free), n, free) && EndMoved(old(free), n, old(prevSearchEnd), prevSearchEnd)
    {
      hide ValidLive, Tagged, Chained, Exact, FreeBytes, Drop, Removed, EndWithout, WithoutBlock, EndMoved;
      ListFacts(loose);
      EndWithoutPlace(prevSearchEnd, free, n);
      ghost var before, list := live, free;
      ghost var ok, k := UnlinkFree(n, loose);
      FreeBytesDrop(before, list, k);
      FreeBytesSame(before, live, free);
      DropMembers(list, k);
      FreeBytesMerge(live, free, o, n);
      Absorb(o, n, loose);
      assert live == Merged(before, o, n);
    }

    /** What coalescing around b starts from and ends with. */
    lemma BaseFacts(base: Live, lo: nat, hi: nat, b: nat)
      requires ValidLive(base, lo, hi) && Coalesced(base) && InUse(base, b) && !base[b].mapped
      ensures var marked, o, e := base[b := base[b].(free := true)], Left(base, b), End(b, base[b].size);
              && o in marked && (o != b ==> FreeEndingAt(base, o, b))
              && var joined := if o == b then marked else Merged(marked, o, b);
                 && End(o, joined[o].size) == e && joined[o].free && !joined[o].mapped
                 && (IsFree(joined, e) <==> IsFree(base, e)) && (e in joined ==> joined[e] == base[e])
                 && Returned(base, b) == (if IsFree(joined, e) then Merged(joined, o, e) else joined)
                 && (IsFree(joined, e) ==> !IsFree(Merged(joined, o, e), End(e, joined[e].size)))
    {
      ReturnSteps(base, b);
      var marked, o, e := base[b := base[b].(free := true)], Left(base, b), End(b, base[b].size);
      var joined := if o == b then marked else Merged(marked, o, b);
      if IsFree(joined, e) {
        assert !FreePair(base, e, End(e, base[e].size));
        assert End(e, base[e].size) > e > b >= o;
      }
    }

    /** Merges the free block o with the blocks behind it while they are free; there is one at most. */
    method CoalesceNext(o: nat, ghost loose: Option<nat>)
      requires Shape(loose) && Accounted(loose) && IsFree(live, o) && !live[o].mapped && heapStart.Some?
      requires loose.Some? ==> loose == Some(o)
      requires var e := End(o, live[o].size);
               IsFree(live, e) ==> !IsFree(Merged(live, o, e), End(e, live[e].size))
      modifies this`headers, this`footers, this`freeList, this`prevSearchEnd, this`availableBytes, this`live, this`free
      ensures Shape(loose) && Accounted(loose) && IsFree(live, o)
      ensures var before := old(live);
              var e := End(o, before[o].size);
              if IsFree(before, e) then
                && live == Merged(before, o, e) && free == Removed(old(free), e)
                && prevSearchEnd == EndWithout(old(prevSearchEnd), old(free), e)
              else live == before && free == old(free) && prevSearchEnd == old(prevSearchEnd)
    {
      hide ValidLive, Tagged, Chained, Exact, Accounted, Removed, EndWithout;
      ghost var before, e, rounds := live, End(o, live[o].size), 0;
      while true
        invariant Shape(loose) && Accounted(loose) && IsFree(live, o) && !live[o].mapped
        invariant rounds == 0 ==> live == before && free == old(free) && prevSearchEnd == old(prevSearchEnd)
        invariant rounds == 1 ==>
                    && IsFree(before, e) && live == Merged(before, o, e) && free == Removed(old(free), e)
                    && prevSearchEnd == EndWithout(old(prevSearchEnd), old(free), e)
        invariant 0 <= rounds <= 1
        decreases 1 - rounds
      {
        var next := NextPhys(o);
        if IsFree(live, End(o, live[o].size)) { NoneBeyond(live, lo, hi, End(o, live[o].size)); }
        if next.Some? { TagsOf(next.value); }
        TagsOf(o);
        if next.None? || !headers[next.value].isFree || headers[next.value].mapped != headers[o].mapped { break; }
        MergeNext(o, next.value, loose);
        rounds := rounds + 1;
      }
    }

    /** Merges the free block b, still off the list, with its free neighbours: into the left one, which
        is on the list, or into b itself. */
    method CoalesceAround(b: nat) returns (owner: nat)
      requires Shape(Some(b)) && Accounted(Some(b)) && IsFree(live, b) && !live[b].mapped && heapStart.Some?
      requires Coalesced(live[b := live[b].(free := false)])
      modifies this`headers, this`footers, this`freeList, this`prevSearchEnd, this`availableBytes, this`live, this`free
      ensures owner == Left(old(live)[b := old(live)[b].(free := false)], b)
      ensures live == Returned(old(live)[b := old(live)[b].(free := false)], b)
      ensures var loose := if owner == b then Some(b) else None; Shape(loose) && Accounted(loose)
      ensures IsFree(live, owner)
      ensures var base := old(live)[b := old(live)[b].(free := false)];
              && (if owner == b then [b] else []) + free == Relisted(base, old(free), b)
              && prevSearchEnd == EndRelisted(base, old(prevSearchEnd), old(free), b)
    {
      hide ValidLive, Tagged, Chained, Exact, Returned, Left, Accounted, Removed, EndWithout;
      ghost var base := live[b := live[b].(free := false)];
      ghost var e := End(b, live[b].size);
      MarkLaws(live, lo, hi, b, false);
      BaseFacts(base, lo, hi, b);
      owner := b;
      ghost var loose := Some(b);
      var prev := PrevPhys(b);
      LeftIs(base, lo, hi, b, if prev.Some? then prev.value else 0);
      if prev.Some? { TagsOf(prev.value); }
      TagsOf(b);
      if prev.Some? && headers[prev.value].isFree && headers[prev.value].mapped == headers[b].mapped {
        MergePrev(prev.value, b);
        owner := prev.value;
        loose := None;
      }
      CoalesceNext(owner, loose);
    }

    /** Puts a block in use back: free, merged with its free neighbours, and on the list. */
    method ReturnBackUnlocked(b: nat) returns (ok: bool)
      requires Valid() && b in live && !live[b].mapped && heapStart.Some?
      modifies this`headers, this`footers, this`freeList, this`prevSearchEnd, this`availableBytes, this`live, this`free
      ensures Valid() && ok == InUse(old(live), b)
      ensures live == if ok then Returned(old(live), b) else old(live)
      ensures ok ==> free == Relisted(old(live), old(free), b)
      ensures ok ==> prevSearchEnd == EndRelisted(old(live), old(prevSearchEnd), old(free), b)
      ensures ok ==> Rejoined(old(live), old(free), b, old(prevSearchEnd), free, prevSearchEnd)
      ensures !ok ==> unchanged(this)
    {
      hide ValidLive, Tagged, Chained, Exact, Returned, Left, Coalesced, Relisted, EndRelisted, Rejoined;
      TagsOf(b);
      ListFacts(None);
      if headers[b].isFree { return false; }
      RelistedPlace(live, free, b, prevSearchEnd);
      ghost var before, tags := live, headers;
      headers := headers[b := headers[b].(isFree := true, next := None)];
      availableBytes := availableBytes + headers[b].size;
      live := live[b := live[b].(free := true)];
      MarkLaws(before, lo, hi, b, true);
      ExactLoose(before, free, b);
      MarkTagged(before, tags, footers, b);
      ChainOff(tags, freeList, free, b, headers);
      FreeBytesSame(before, live, free);
      assert live[b := live[b].(free := false)] == before;
      var merged := CoalesceAround(b);
      ReturnedLaws(before, lo, hi, b);
      if merged == b {
        ghost var list := free;
        InsertFree(b);
        assert free[1..] == list;
      }
      return true;
    }

    // ---- allocation ----

    /** Writes the tags of the two blocks that b is cut into. */
    method CutTags(b: nat, n: nat) returns (rest: nat)
      requires b in headers && n + OVERHEAD <= headers[b].size
      modifies this`headers, this`footers
      ensures var was, m := old(headers)[b], old(headers)[b].size - n - OVERHEAD;
              && rest == End(b, n)
              && headers == old(headers)[b := was.(size := n, next := Some(rest))]
                                        [rest := Header(m, true, was.mapped, was.next)]
              && footers == old(footers)[FooterAt(b, n) := Footer(n, was.mapped)]
                                        [FooterAt(rest, m) := Footer(m, was.mapped)]
    {
      var size, mapped, next := headers[b].size, headers[b].mapped, headers[b].next;
      headers := headers[b := headers[b].(size := n)];
      WriteFooter(b);
      rest := End(b, n);
      headers := headers[rest := Header(size - n - OVERHEAD, true, mapped, next)];
      WriteFooter(rest);
      headers := headers[b := headers[b].(next := Some(rest))];
    }

    /** Cuts the block at place k of the list down to n bytes; the rest follows it on the list. */
    method SplitBlock(b: nat, n: nat, ghost k: nat) returns (ok: bool)
      requires Shape(None) && Accounted(None) && k < |free| && free[k] == b && b in live && !live[b].mapped
               && n <= live[b].size
      modifies this`headers, this`footers, this`availableBytes, this`live, this`free
      ensures ok == Splits(old(live), b, n) && live == Split(old(live), b, n)
      ensures ok <==> old(live)[b].size > n + OVERHEAD
      ensures CutDown(old(live), live, b, n, old(live)[b].free)
      ensures Shape(None) && Accounted(None)
      ensures free == if ok then InsertAt(old(free), k + 1, End(b, n)) else old(free)
    {
      hide ValidLive, Tagged, Chained, Exact, FreeBytes, InsertAt, CutDown;
      SplitLaws(live, lo, hi, b, n);
      TagsOf(b);
      ListFacts(None);
      if n > headers[b].size { return false; }
      if headers[b].size < n + OVERHEAD + 1 { return false; }
      ExactSplit(live, free, k, n);
      ghost var before, tags, list := live, headers, free;
      var rest := CutTags(b, n);
      live := Split(live, b, n);
      free := InsertAt(free, k + 1, rest);
      SplitSum(before, list, k, n);
      availableBytes := availableBytes - OVERHEAD;
      Linked(tags, freeList, list, k);
      ChainInsert(tags, freeList, list, k, rest, headers);
      TaggedSplit(before, lo, hi, tags, old(footers), b, n, headers, footers);
      SplitMembers(list, k, rest);
      return true;
    }

    lemma Linked(headers: Headers, head: Option<nat>, free: seq<nat>, k: nat)
      requires Chained(headers, head, free) && k < |free|
      ensures LinkAt(headers, free, k)
    {
    }

    lemma SplitMembers(free: seq<nat>, k: nat, x: nat)
      requires Distinct(free) && k < |free| && x !in free
      ensures forall y: nat | y in free :: y in InsertAt(free, k + 1, x)
    {
      InsertMembers(free, k + 1, x);
    }

    /** A split costs the list one header and one footer. */
    lemma SplitSum(live: Live, free: seq<nat>, k: nat, n: nat)
      requires Distinct(free) && k < |free| && Splits(live, free[k], n) && End(free[k], n) !in free
      ensures FreeBytes(Split(live, free[k], n), InsertAt(free, k + 1, End(free[k], n))) + OVERHEAD
              == FreeBytes(live, free)
    {
      var live', b := Split(live, free[k], n), free[k];
      FreeBytesInsert(live', free, k, End(b, n));
      assert b in free;
      FreeBytesResize(live, live', free, b);
    }

    /** Takes the block at place k off the list and out of the sum, `prev` being the one before it
        there; the next search starts from `prev`. */
    method PopBlock(prev: Option<nat>, b: nat, ghost k: nat)
      requires Shape(None) && Accounted(None) && k < |free| && free[k] == b
      requires prev == if k > 0 then Some(free[k - 1]) else None
      modifies this`headers, this`freeList, this`prevSearchEnd, this`availableBytes, this`live, this`free
      ensures IsFree(old(live), b) && live == old(live)[b := old(live)[b].(free := false)]
      ensures Shape(None) && Accounted(None) && free == Drop(old(free), k)
      ensures prevSearchEnd == prev
    {
      hide ValidLive, Tagged, Chained, Exact, FreeBytes, Drop;
      ListFacts(None);
      OnList(live, lo, hi, free, k);
      MarkLaws(live, lo, hi, b, false);
      Neighbours(headers, freeList, free, k);
      FreeBytesDrop(live, free, k);
      ExactDrop(live, free, None, k);
      TagsOf(b);
      ghost var tags, list, before := headers, free, live;
      Bypass(b, prev);
      prevSearchEnd := prev;
      availableBytes := availableBytes - headers[b].size;
      live := live[b := live[b].(free := false)];
      free := Drop(free, k);
      FreeBytesSame(before, live, free);
      ChainDrop(tags, old(freeList), list, k, headers);
      UnlinkShape(before, tags, footers, live, headers, b);
    }

    /** Takes n bytes from the block at place k of the list. */
    method TakeBlock(prev: Option<nat>, b: nat, n: nat, ghost k: nat)
      requires Valid() && k < |free| && free[k] == b && n <= Size(live, b)
      requires prev == if k > 0 then Some(free[k - 1]) else None
      modifies this`headers, this`footers, this`freeList, this`prevSearchEnd, this`availableBytes, this`live, this`free
      ensures Valid() && IsFree(old(live), b) && live == Taken(old(live), b, n)
      ensures free == TakenList(old(live), old(free), k, n) && prevSearchEnd == prev
      ensures CutDown(old(live), live, b, n, false) && TakenPlace(old(live), old(free), k, n, free)
    {
      hide ValidLive, Tagged, Chained, Exact, FreeBytes, Coalesced, Drop, CutDown, TakenPlace;
      OnList(live, lo, hi, free, k);
      TakenLaws(live, lo, hi, b, n);
      TakenListPlace(live, free, k, n);
      ghost var before := free;
      var split := SplitBlock(b, n, k);
      PopBlock(prev, b, k);
      DropInserted(before, k, End(b, n));
    }

    lemma DropInserted(s: seq<nat>, k: nat, x: nat)
      requires k < |s|
      ensures Drop(InsertAt(s, k + 1, x), k) == s[k := x]
    {
    }

    lemma OnList(live: Live, lo: nat, hi: nat, free: seq<nat>, k: nat)
      requires Exact(live, free, None) && k < |free| && ValidLive(live, lo, hi)
      ensures IsFree(live, free[k]) && !live[free[k]].mapped
    {
      assert free[k] in free;
    }

    /** No block at places from..to of the list holds n bytes. */
    ghost predicate TooSmall(n: nat, from: nat, to: nat)
      reads this
    {
      forall j | from <= j < to && j < |free| :: Size(live, free[j]) < n
    }

    ghost function PlaceOf(b: nat): (k: nat)
      requires b in free
      reads this
      ensures k < |free| && free[k] == b
    {
      var k :| 0 <= k < |free| && free[k] == b; k
    }

    /** The last search ended on the tail of the list. */
    ghost predicate EndedOnTail()
      reads this
    {
      free != [] && prevSearchEnd == Some(free[|free| - 1])
    }

    /** Where the next search starts: behind the block the last one ended on, or at the head. */
    ghost function StartPlace(): nat
      requires prevSearchEnd.Some? ==> prevSearchEnd.value in free
      reads this
    {
      if prevSearchEnd.Some? && !EndedOnTail() then PlaceOf(prevSearchEnd.value) + 1 else 0
    }

    /** The block at place k is the first with n bytes from the start place on, going around once. */
    ghost predicate NextFit(n: nat, k: nat)
      requires prevSearchEnd.Some? ==> prevSearchEnd.value in free
      reads this
    {
      && k < |free| && n <= Size(live, free[k])
      && if StartPlace() <= k then TooSmall(n, StartPlace(), k)
         else TooSmall(n, StartPlace(), |free|) && TooSmall(n, 0, k)
    }

    lemma ListHead()
      requires Chained(headers, freeList, free)
      ensures freeList == if free == [] then None else Some(free[0])
    {
    }

    lemma AtPlace(k: nat)
      requires Chained(headers, freeList, free) && Exact(live, free, None) && k < |free|
      ensures LinkAt(headers, free, k) && IsFree(live, free[k])
    {
      assert free[k] in free;
    }

    lemma OnePlace(j: nat, k: nat)
      requires Exact(live, free, None) && j < |free| && k < |free| && free[j] == free[k]
      ensures j == k
    {
    }

    /** The search loop for n bytes after k rounds. */
    ghost function Walked(n: nat, k: nat): Walk
      reads this
    {
      Rounds(headers, freeList, prevSearchEnd, n, k)
    }

    /** The loop is still running after any number of rounds. */
    ghost predicate RunsForever(n: nat)
      reads this
    {
      forall k: nat :: Walked(n, k).Going?
    }

    ghost predicate LookingAt(w: Walk, j: nat)
      reads this
    {
      j < |free| && w == Going(Before(free, j), Some(free[j]))
    }

    /** When the last search ended on the tail and no block fits, every round looks at one more block
        of the list, and the round at the tail goes back to the head. */
    lemma {:induction false} KeepsGoing(n: nat, k: nat)
      requires Shape(None) && EndedOnTail() && TooSmall(n, 0, |free|)
      ensures exists j: nat :: LookingAt(Walked(n, k), j)
    {
      hide ValidLive, Tagged, Chained, Exact;
      ListHead();
      var last := |free| - 1;
      AtPlace(last);
      if k == 0 {
        assert LookingAt(Walked(n, 0), 0);
      } else {
        KeepsGoing(n, k - 1);
        var j: nat :| LookingAt(Walked(n, k - 1), j);
        AtPlace(j);
        TagsOf(free[j]);
        assert LookingAt(Walked(n, k), if j == last then 0 else j + 1);
      }
    }

    /** The next-fit search: from where the last one ended to the tail, then once around from the head.
        The method stops where the loop would come to the tail a second time with nothing changed, and
        says `Endless`: the loop itself never stops then. Otherwise it stops as the loop does. */
    method Search(n: nat) returns (found: Found, ghost k: nat)
      requires Shape(None)
      ensures match found
              case Hit(prev, curr) =>
                && NextFit(n, k) && free[k] == curr && prev == Before(free, k)
                && exists r: nat :: Walked(n, r) == Fitting(prev, curr)
              case Miss => TooSmall(n, 0, |free|) && !EndedOnTail() && exists r: nat :: Walked(n, r) == Exhausted
              case Endless => TooSmall(n, 0, |free|) && EndedOnTail() && RunsForever(n)
    {
      hide ValidLive, Tagged, Chained, Exact, Rounds, OldAllocator.Walked;
      ListHead();
      ghost var q, start := if prevSearchEnd.Some? then PlaceOf(prevSearchEnd.value) else 0, StartPlace();
      var prev: Option<nat>, curr: Option<nat> := None, freeList;
      k := 0;
      if prevSearchEnd.Some? {
        AtPlace(q);
        if EndedOnTail() { OnePlace(q, |free| - 1); }
        if headers[prevSearchEnd.value].next.Some? {
          prev, curr := prevSearchEnd, headers[prevSearchEnd.value].next;
          k := q + 1;
        }
      }
      var wrapped := false;
      ghost var rounds: nat := 0;
      FirstRound(n);
      while curr.Some?
        invariant k <= |free| && curr == (if k < |free| then Some(free[k]) else None) && prev == Before(free, k)
        invariant Walked(n, rounds) == Going(prev, curr)
        invariant !wrapped ==> start <= k && TooSmall(n, start, k)
        invariant wrapped ==> prevSearchEnd.Some? && TooSmall(n, start, |free|) && TooSmall(n, 0, k) && k < |free|
        invariant wrapped && q + 1 < |free| ==> k <= q
        invariant prevSearchEnd.Some? ==> k < |free|
        decreases if wrapped then 0 else 1, |free| - k
      {
        AtPlace(k);
        TagsOf(curr.value);
        NextRound(n, rounds);
        rounds := rounds + 1;
        if headers[curr.value].isFree && headers[curr.value].size >= n {
          return Hit(prev, curr.value), k;
        }
        if prevSearchEnd.Some? && headers[curr.value].next.None? {
          if wrapped {
            Forever(n);
            return Endless, k;
          }
          wrapped, prev, curr, k := true, None, freeList, 0;
          continue;
        }
        prev, curr, k := curr, headers[curr.value].next, k + 1;
        if prevSearchEnd.Some? {
          AtPlace(q);
          if curr == headers[prevSearchEnd.value].next {
            OnePlace(k, q + 1);
            return Miss, k;
          }
        }
      }
      NextRound(n, rounds);
      return Miss, k;
    }

    lemma FirstRound(n: nat)
      ensures Walked(n, 0) == FirstLook(headers, freeList, prevSearchEnd)
    {
    }

    lemma NextRound(n: nat, k: nat)
      ensures Walked(n, k + 1) == Round(headers, freeList, prevSearchEnd, n, Walked(n, k))
    {
    }

    lemma Forever(n: nat)
      requires Shape(None) && EndedOnTail() && TooSmall(n, 0, |free|)
      ensures RunsForever(n)
    {
      forall k: nat
        ensures Walked(n, k).Going?
      {
        KeepsGoing(n, k);
      }
    }

    /** What the OS may answer: fresh bytes, for the program break those where the heap ends. */
    ghost predicate OsAnswer(os: Option<nat>, size: nat, mapped: bool)
      reads this
    {
      os.Some? ==> FreshBytes(live, os.value, OVERHEAD + size) && (!mapped ==> os.value == hi)
    }

    /** A new block in use, from mmap or by moving the program break. */
    method CreateBlock(size: nat, mapped: bool, os: Option<nat>) returns (block: Option<nat>)
      requires Valid() && OsAnswer(os, size, mapped)
      modifies this`headers, this`footers, this`heapStart, this`heapEnd, this`live, this`hi
      ensures block == os && (os.None? ==> unchanged(this))
      ensures Valid() && live == if os.Some? then old(live)[os.value := Info(size, false, mapped)] else old(live)
      ensures os.Some? ==> os.value !in old(live)
      ensures hi == if os.Some? && !mapped then End(os.value, size) else old(hi)
    {
      hide ValidLive, Tagged, Chained, Exact, FreeBytes, Coalesced, FreshBytes;
      if os.None? { return None; }
      var b := os.value;
      CreatedLaws(live, lo, hi, b, Info(size, false, mapped));
      TaggedCreate(live, headers, footers, b, Info(size, false, mapped), None);
      ExactCreate(live, free, b, Info(size, false, mapped));
      ghost var tags := headers;
      headers := headers[b := Header(size, false, mapped, None)];
      WriteFooter(b);
      ChainOff(tags, freeList, free, b, headers);
      live := live[b := Info(size, false, mapped)];
      if !mapped {
        if heapStart.None? { heapStart := Some(b); }
        heapEnd := Some(End(b, size));
        hi := End(b, size);
      }
      return os;
    }

    /** The search for n bytes would go around forever. */
    ghost predicate Trapped(n: nat)
      reads this
    {
      n <= availableBytes && EndedOnTail() && TooSmall(n, 0, |free|)
    }

    /** No block on the list serves n bytes. */
    ghost predicate NoneServes(n: nat)
      reads this
    {
      n > availableBytes || TooSmall(n, 0, |free|)
    }

    /** The request goes to the OS when and only when every block on the list is too small. */
    lemma NoneServesExact(n: nat)
      requires Valid()
      ensures NoneServes(n) <==> forall j | 0 <= j < |free| :: Size(live, free[j]) < n
    {
      hide ValidLive, Tagged, Chained, Exact, FreeBytes, Coalesced;
      forall j | 0 <= j < |free|
        ensures Size(live, free[j]) <= availableBytes
      {
        FreeBytesDrop(live, free, j);
      }
    }

    /** Which block a search that starts behind place q serves: the first that fits behind q or, when none does,
        the first from the head. When q is the tail, or no search ended anywhere, it starts at the head. */
    lemma NextFitPlace(n: nat, k: nat, q: nat)
      requires Shape(None)
      requires if prevSearchEnd.Some? then q < |free| && prevSearchEnd.value == free[q] else q + 1 == |free|
      ensures NextFit(n, k) <==>
              && k < |free| && n <= Size(live, free[k])
              && if q < k && q + 1 < |free| then forall j | q < j < k :: Size(live, free[j]) < n
                 else && (forall j | 0 <= j < k :: Size(live, free[j]) < n)
                      && (q + 1 < |free| ==> forall j | q < j < |free| :: Size(live, free[j]) < n)
    {
      hide ValidLive, Tagged, Chained;
      if prevSearchEnd.Some? {
        OnePlace(PlaceOf(prevSearchEnd.value), q);
        if EndedOnTail() { OnePlace(q, |free| - 1); }
      }
    }

    /** allocate: the next fitting free block, cut to size, else a new block from the OS. `Hangs` is
        the call that never returns. */
    method Allocate(n: nat, os: Option<nat>) returns (result: Allocation)
      requires Valid() && OsAnswer(os, n, n >= MMAP_THRESHOLD)
      modifies this
      ensures Valid()
      ensures result.Hangs? <==> old(Trapped(n))
      ensures result.Hangs? <==> n <= old(availableBytes) && old(RunsForever(n))
      ensures lo == old(lo)
      ensures hi == if os.Some? && n < MMAP_THRESHOLD && old(NoneServes(n)) && !result.Hangs? then End(os.value, n)
                    else old(hi)
      ensures match result
              case Hangs => unchanged(this)
              case Failed => unchanged(this) && os.None? && old(NoneServes(n))
              case Memory(p) =>
                && p >= HEADER_SIZE
                && var b := p - HEADER_SIZE;
                   && InUse(live, b) && !InUse(old(live), b) && n <= live[b].size
                   && (forall x | InUse(old(live), x) :: InUse(live, x) && live[x] == old(live)[x])
                   && if old(NoneServes(n)) then
                        && os == Some(b) && live == old(live)[b := Info(n, false, n >= MMAP_THRESHOLD)]
                        && free == old(free) && prevSearchEnd == old(prevSearchEnd)
                      else
                        && b in old(live) && live == Taken(old(live), b, n)
                        && CutDown(old(live), live, b, n, false)
                        && exists k: nat ::
                             && old(NextFit(n, k)) && k < |old(free)| && old(free)[k] == b
                             && TakenPlace(old(live), old(free), k, n, free)
                             && free == TakenList(old(live), old(free), k, n) && prevSearchEnd == Before(old(free), k)
    {
      hide ValidLive, Tagged, Chained, Exact, FreeBytes, Coalesced, FreshBytes, Taken, TooSmall, NextFit, Rounds,
           TakenList, CutDown, TakenPlace;
      ghost var before := live;
      if n <= availableBytes {
        var found;
        ghost var k;
        found, k := Search(n);
        match found {
          case Hit(prev, b) =>
            HitServes(n, k);
            TakenLaws(live, lo, hi, b, n);
            TakeBlock(prev, b, n, k);
            return Memory(Payload(b));
          case Endless => return Hangs;
          case Miss =>
        }
      }
      var block := CreateBlock(n, n >= MMAP_THRESHOLD, os);
      if block.None? { return Failed; }
      return Memory(Payload(block.value));
    }

    /** A fitting place is free, and contradicts that none serves. */
    lemma HitServes(n: nat, k: nat)
      requires Shape(None) && NextFit(n, k)
      ensures k < |free| && n <= Size(live, free[k]) && IsFree(live, free[k]) && !TooSmall(n, 0, |free|)
    {
      assert free[k] in free;
    }

    // ---- deallocation ----

    lemma HeapBegun(b: nat)
      requires Shape(None) && b in live && !live[b].mapped
      ensures heapStart.Some?
    {
      assert Inside(live, b, b) && b in HeapBytes(live);
    }

    lemma MappedClaim(live: Live, lo: nat, hi: nat, b: nat)
      requires ValidLive(live, lo, hi) && b in live
      ensures live[b].mapped ==> Claimed(live, b) == live
    {
    }

    /** Drops a block in use that is mapped or ends the heap. */
    ghost method Discard(b: nat)
      requires Valid() && InUse(live, b) && (live[b].mapped || End(b, live[b].size) == hi)
      modifies this`live
      ensures live == old(live) - {b}
      ensures ValidLive(live, lo, if old(live)[b].mapped then hi else b) && Coalesced(live)
      ensures Tagged(live, headers, footers) && Exact(live, free, None) && Accounted(None)
    {
      hide ValidLive, Tagged, Chained, Exact, FreeBytes, Coalesced;
      RemovedLaws(live, lo, hi, b);
      TaggedRemove(live, headers, footers, b);
      ExactRemove(live, free, b);
      live := live - {b};
    }

    /** deallocate(Block*): off the list first when it is free; then unmapped, or given back to the OS
        when it ends the heap, or put on the list. `osOk` is what munmap or brk would answer. */
    method Deallocate(b: nat, osOk: bool) returns (ok: bool)
      requires Valid() && b in live
      modifies this
      ensures Valid()
      ensures var claimed, mapped, atEnd :=
                Claimed(old(live), b), old(live)[b].mapped, End(b, old(live)[b].size) == old(hi);
              if mapped then ok == osOk && live == (if osOk then old(live) - {b} else old(live))
              else if !atEnd then ok && live == Returned(claimed, b)
              else ok == osOk && live == (if osOk then old(live) - {b} else claimed)
      ensures lo == old(lo)
      ensures hi == if !old(live)[b].mapped && End(b, old(live)[b].size) == old(hi) && osOk then b else old(hi)
      ensures var claimed, list, end :=
                Claimed(old(live), b), Removed(old(free), b), EndWithout(old(prevSearchEnd), old(free), b);
              if old(live)[b].mapped || End(b, old(live)[b].size) == old(hi) then free == list && prevSearchEnd == end
              else free == Relisted(claimed, list, b) && prevSearchEnd == EndRelisted(claimed, end, list, b)
      ensures Delisted(old(live), old(hi), old(free), b, old(prevSearchEnd), free, prevSearchEnd)
    {
      hide ValidLive, Tagged, Chained, Exact, FreeBytes, Coalesced, Returned, FreshBytes, Relisted, EndRelisted,
           Removed, EndWithout, Delisted;
      TagsOf(b);
      ListFacts(None);
      DelistedPlace(live, hi, free, b, prevSearchEnd);
      ghost var before := live;
      if headers[b].isFree {
        UnlinkedLaws(live, lo, hi, b);
        ghost var list := free;
        var unlinked;
        ghost var k;
        unlinked, k := UnlinkFree(b, None);
        FreeBytesDrop(before, list, k);
        DropMembers(list, k);
        FreeBytesSame(before, live, free);
        TagsOf(b);
        availableBytes := availableBytes - headers[b].size;
      } else {
        NothingRemoved(prevSearchEnd, free, b);
      }
      ghost var list, end := free, prevSearchEnd;
      assert list == Removed(old(free), b) && end == EndWithout(old(prevSearchEnd), old(free), b);
      MappedClaim(before, lo, hi, b);
      assert live == Claimed(before, b);
      assert Valid();
      if headers[b].mapped {
        if osOk { Discard(b); }
        return osOk;
      }
      HeapBegun(b);
      if heapEnd != Some(End(b, headers[b].size)) {
        var returned := ReturnBackUnlocked(b);
        return true;
      }
      if !osOk { return false; }
      Discard(b);
      heapEnd := Some(b);
      hi := b;
      return true;
    }

    // ---- the first chunk ----

    /** A heap that starts at the program break, with one free chunk when the break moved. */
    constructor (brk: nat, osOk: bool)
      ensures Valid() && lo == brk && live == if osOk then map[brk := Info(INITIAL_CHUNK, true, false)] else map[]
      ensures free == (if osOk then [brk] else []) && prevSearchEnd == None
              && hi == if osOk then End(brk, INITIAL_CHUNK) else brk
    {
      hide ValidLive, Tagged, Chained, Exact, FreeBytes, Coalesced;
      prevSearchEnd, lo := None, brk;
      if osOk {
        FirstChunk(brk);
        headers := map[brk := Header(INITIAL_CHUNK, true, false, None)];
        footers := map[FooterAt(brk, INITIAL_CHUNK) := Footer(INITIAL_CHUNK, false)];
        freeList, availableBytes := Some(brk), INITIAL_CHUNK;
        heapStart, heapEnd, hi := Some(brk), Some(End(brk, INITIAL_CHUNK)), End(brk, INITIAL_CHUNK);
        live, free := map[brk := Info(INITIAL_CHUNK, true, false)], [brk];
      } else {
        NothingYet(brk);
        headers, footers, live := map[], map[], map[];
        freeList, availableBytes, free := None, 0, [];
        heapStart, heapEnd, hi := None, None, brk;
      }
    }
  }

  lemma NothingYet(brk: nat)
    ensures ValidLive(map[], brk, brk) && Coalesced(map[])
    ensures Tagged(map[], map[], map[]) && Chained(map[], None, []) && Exact(map[], [], None)
    ensures FreeBytes(map[], []) == 0
  {
    StartedSound(Heap(map[], brk, brk));
  }

  lemma FirstChunk(brk: nat)
    ensures var live, headers :=
              map[brk := Info(INITIAL_CHUNK, true, false)], map[brk := Header(INITIAL_CHUNK, true, false, None)];
            && ValidLive(live, brk, End(brk, INITIAL_CHUNK)) && Coalesced(live)
            && Tagged(live, headers, map[FooterAt(brk, INITIAL_CHUNK) := Footer(INITIAL_CHUNK, false)])
            && Chained(headers, Some(brk), [brk]) && Exact(live, [brk], None) && FreeBytes(live, [brk]) == INITIAL_CHUNK
  {
    StartedSound(Heap(map[brk := Info(INITIAL_CHUNK, true, false)], brk, End(brk, INITIAL_CHUNK)));
    assert LinkAt(map[brk := Header(INITIAL_CHUNK, true, false, None)], [brk], 0);
  }
}
