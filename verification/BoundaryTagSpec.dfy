/** The old boundary-tag allocator (old/old_design.hpp) as a value: the live blocks by address, and
    what splitting, creating, returning and shrinking do to them. */
module BoundaryTagSpec {
  import opened Widths

  const HEADER_SIZE: nat := 24
  const FOOTER_SIZE: nat := 16
  const OVERHEAD: nat := HEADER_SIZE + FOOTER_SIZE
  const INITIAL_CHUNK: nat := 4096
  const MMAP_THRESHOLD: nat := 400

  /** `size` is the payload; a mapped block came from mmap, the others from the program break. */
  datatype Info = Info(size: nat, free: bool, mapped: bool)

  type Live = map<nat, Info>

  function End(b: nat, size: nat): nat {
    b + OVERHEAD + size
  }

  function Payload(b: nat): nat {
    b + HEADER_SIZE
  }

  function FooterAt(b: nat, size: nat): nat {
    b + HEADER_SIZE + size
  }

  /** The byte lies in the live block at b: its header, payload or footer. */
  ghost predicate Inside(live: Live, b: nat, x: nat) {
    b in live && b <= x < End(b, live[b].size)
  }

  ghost predicate Disjoint(live: Live) {
    forall b, c, x | Inside(live, b, x) && Inside(live, c, x) :: b == c
  }

  /** The byte lies in a block from the program break. */
  ghost predicate InHeap(live: Live, x: nat) {
    exists b: nat :: Inside(live, b, x) && !live[b].mapped
  }

  ghost function HeapBytes(live: Live): iset<nat> {
    iset x: nat | InHeap(live, x)
  }

  ghost predicate Within(x: nat, lo: nat, hi: nat) {
    lo <= x < hi
  }

  ghost function Between(lo: nat, hi: nat): iset<nat> {
    iset x: nat | Within(x, lo, hi)
  }

  /** Free blocks come from the program break; a mapped block is unmapped when freed. */
  ghost predicate MappedInUse(live: Live) {
    forall b | b in live && live[b].mapped :: !live[b].free
  }

  /** The live blocks are disjoint, and those from the program break tile [lo, hi) exactly. */
  ghost predicate ValidLive(live: Live, lo: nat, hi: nat) {
    lo <= hi && Disjoint(live) && MappedInUse(live) && HeapBytes(live) == Between(lo, hi)
  }

  ghost predicate IsFree(live: Live, b: nat) {
    b in live && live[b].free
  }

  ghost predicate InUse(live: Live, b: nat) {
    b in live && !live[b].free
  }

  /** The free block at l ends where b starts. */
  ghost predicate FreeEndingAt(live: Live, l: nat, b: nat) {
    IsFree(live, l) && End(l, live[l].size) == b
  }

  ghost predicate FreePair(live: Live, l: nat, b: nat) {
    FreeEndingAt(live, l, b) && IsFree(live, b)
  }

  /** No two physical neighbours are both free. */
  ghost predicate Coalesced(live: Live) {
    forall l: nat, b: nat :: !FreePair(live, l, b)
  }

  ghost predicate FreshBytes(live: Live, a: nat, n: nat) {
    forall b: nat, x: nat | Inside(live, b, x) :: x < a || a + n <= x
  }

  // ---- operations ----

  ghost predicate Splits(live: Live, b: nat, n: nat) {
    b in live && live[b].size >= n + OVERHEAD + 1
  }

  /** Cuts a free remainder off block b, keeping n bytes, when the remainder has a payload. */
  ghost function Split(live: Live, b: nat, n: nat): Live
    requires b in live
  {
    if Splits(live, b, n) then
      live[b := live[b].(size := n)][End(b, n) := Info(live[b].size - n - OVERHEAD, true, live[b].mapped)]
    else live
  }

  /** What allocating n bytes from the free block b leaves. */
  ghost function Taken(live: Live, b: nat, n: nat): Live
    requires b in live
  {
    var l := Split(live, b, n);
    l[b := l[b].(free := false)]
  }

  /** One block in place of l and of r, which starts where l ends. */
  ghost function Merged(live: Live, l: nat, r: nat): Live
    requires l in live && r in live
  {
    (live - {r})[l := live[l].(size := live[l].size + OVERHEAD + live[r].size)]
  }

  /** Start of the range block b merges into: the free left neighbour's, if there is one. */
  ghost function Left(live: Live, b: nat): (l: nat)
    ensures l <= b
  {
    if exists l: nat :: FreeEndingAt(live, l, b) then
      var l: nat :| FreeEndingAt(live, l, b); l
    else b
  }

  /** End of that range: past the free right neighbour, if there is one. */
  ghost function Right(live: Live, e: nat): nat {
    if IsFree(live, e) then End(e, live[e].size) else e
  }

  /** What returning block b leaves: one free block in place of b and its free neighbours. */
  ghost function Returned(live: Live, b: nat): Live
    requires b in live
  {
    var e := End(b, live[b].size);
    var lo, hi := Left(live, b), Right(live, e);
    (live - {b, lo} - (if IsFree(live, e) then {e} else {}))[lo := Info(hi - lo - OVERHEAD, true, false)]
  }

  // ---- facts ----

  lemma DisjointRemove(live: Live, b: nat)
    requires Disjoint(live) && b in live
    ensures Disjoint(live - {b}) && FreshBytes(live - {b}, b, OVERHEAD + live[b].size)
  {
    assert forall c, x | Inside(live - {b}, c, x) :: Inside(live, c, x);
    forall c: nat, x: nat | Inside(live - {b}, c, x)
      ensures x < b || b + OVERHEAD + live[b].size <= x
    {
      assert Inside(live, c, x);
      assert b <= x < End(b, live[b].size) ==> Inside(live, b, x);
    }
  }

  lemma FreshStart(live: Live, a: nat, n: nat)
    requires FreshBytes(live, a, n) && n > 0
    ensures a !in live
  {
    assert a in live ==> Inside(live, a, a);
  }

  lemma DisjointAdd(live: Live, a: nat, i: Info)
    requires Disjoint(live) && FreshBytes(live, a, OVERHEAD + i.size)
    ensures a !in live && Disjoint(live[a := i])
  {
    FreshStart(live, a, OVERHEAD + i.size);
    var live' := live[a := i];
    forall b, c, x | Inside(live', b, x) && Inside(live', c, x)
      ensures b == c
    {
      assert b != a ==> Inside(live, b, x);
      assert c != a ==> Inside(live, c, x);
    }
  }

  lemma FreshPart(live: Live, a: nat, n: nat, b: nat, m: nat)
    requires FreshBytes(live, a, n) && a <= b && b + m <= a + n
    ensures FreshBytes(live, b, m)
  {
  }

  lemma FreshAdd(live: Live, a: nat, n: nat, b: nat, i: Info)
    requires FreshBytes(live, a, n) && b !in live && (End(b, i.size) <= a || a + n <= b)
    ensures FreshBytes(live[b := i], a, n)
  {
    var live' := live[b := i];
    forall c: nat, x: nat | Inside(live', c, x)
      ensures x < a || a + n <= x
    {
      assert c != b ==> Inside(live, c, x);
    }
  }

  lemma HeapAdd(live: Live, a: nat, i: Info)
    requires a !in live
    ensures HeapBytes(live[a := i]) == HeapBytes(live) + if i.mapped then iset{} else Between(a, End(a, i.size))
  {
    var live' := live[a := i];
    forall x: nat
      ensures x in HeapBytes(live') <==> x in HeapBytes(live) + if i.mapped then iset{} else Between(a, End(a, i.size))
    {
      if b: nat :| Inside(live, b, x) && !live[b].mapped { assert Inside(live', b, x); }
      if b: nat :| Inside(live', b, x) && !live'[b].mapped { assert b != a ==> Inside(live, b, x); }
      if !i.mapped && a <= x < End(a, i.size) { assert Inside(live', a, x); }
    }
  }

  /** Removing a block takes exactly its bytes. */
  lemma HeapRemove(live: Live, b: nat)
    requires Disjoint(live) && b in live
    ensures HeapBytes(live - {b}) ==
              HeapBytes(live) - if live[b].mapped then iset{} else Between(b, End(b, live[b].size))
  {
    HeapAdd(live - {b}, b, live[b]);
    assert (live - {b})[b := live[b]] == live;
    forall x: nat | x in HeapBytes(live - {b})
      ensures !(b <= x < End(b, live[b].size))
    {
      var c: nat :| Inside(live - {b}, c, x) && !live[c].mapped;
      assert Inside(live, c, x);
      assert b <= x < End(b, live[b].size) ==> Inside(live, b, x);
    }
  }

  /** A block that does not end the heap is followed by another. */
  lemma NextBlock(live: Live, lo: nat, hi: nat, b: nat)
    requires ValidLive(live, lo, hi) && b in live && !live[b].mapped
    ensures lo <= b && End(b, live[b].size) <= hi
    ensures var e := End(b, live[b].size); e < hi ==> e in live && !live[e].mapped
  {
    var e := End(b, live[b].size);
    assert Inside(live, b, b) && b in HeapBytes(live);
    assert Inside(live, b, e - 1) && e - 1 in HeapBytes(live);
    if e < hi {
      assert e in HeapBytes(live);
      var c: nat :| Inside(live, c, e) && !live[c].mapped;
      assert c < e ==> Inside(live, c, e - 1);
    }
  }

  /** A block that does not start the heap follows another. */
  lemma PrevBlock(live: Live, lo: nat, hi: nat, b: nat) returns (p: nat)
    requires ValidLive(live, lo, hi) && b in live && !live[b].mapped && lo < b
    ensures p in live && !live[p].mapped && End(p, live[p].size) == b && lo <= p
  {
    assert Inside(live, b, b) && b in HeapBytes(live);
    assert b - 1 in Between(lo, hi) && b - 1 in HeapBytes(live);
    p :| Inside(live, p, b - 1) && !live[p].mapped;
    assert End(p, live[p].size) > b ==> Inside(live, p, b);
    assert Inside(live, p, p) && p in HeapBytes(live);
  }
}
