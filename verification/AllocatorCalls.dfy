/** The calls of the allocator (allocator.hpp) with their loops, on the structures of one size class:
    its central free list, its transfer cache and the slab of the CPU that runs the call. */
module AllocatorCalls {
  import opened Sequences
  import opened Counting
  import opened Widths
  import opened PageHeapSpec
  import opened PackedLists
  import opened CflSpec
  import opened CflLaws
  import opened CflMemory
  import opened CentralFreeLists
  import opened SizeClasses
  import opened SlabLayout
  import opened PerCpuSlabs
  import opened TransferCaches
  import opened BatchMoves
  import opened AllocatorLaws

  // ---- who holds what ----

  /** Each lent object is in the cache, on the slab's stack, with a caller or loose, exactly once. */
  ghost predicate Balanced(c: Cfl, cached: seq<nat>, stack: seq<nat>, user: multiset<nat>, loose: seq<nat>) {
    forall p: nat :: Count(cached, p) + Count(stack, p) + user[p] + Count(loose, p) == if Lent(c, p) then 1 else 0
  }

  /** An object at this address that the list has lent. */
  ghost function ObjectAt(c: Cfl, p: nat): (o: Object)
    requires Lent(c, p)
    ensures o in Outs(c) && Address(o, c.size) == p
  {
    var a: nat :| Lends(c, a, p);
    var i: nat :| Out(c, Object(a, i)) && Address(Object(a, i), c.size) == p;
    Object(a, i)
  }

  ghost function ObjectsAt(c: Cfl, ps: seq<nat>): (r: seq<Object>)
    requires forall i | 0 <= i < |ps| :: Lent(c, ps[i])
    ensures |r| == |ps| && forall i | 0 <= i < |ps| :: r[i] == ObjectAt(c, ps[i])
  {
    seq(|ps|, i requires 0 <= i < |ps| => ObjectAt(c, ps[i]))
  }

  lemma CountTwice(s: seq<nat>, i: nat, j: nat)
    requires i < j < |s| && s[i] == s[j]
    ensures Count(s, s[i]) >= 2
  {
    CountSplit(s, j, s[i]);
    CountIn(s[..j], i);
    CountIn(s[j..], 0);
  }

  /** Pointers that occur once, and only when lent, are a batch of distinct outstanding objects. */
  lemma BatchOf(c: Cfl, ps: seq<nat>)
    requires forall p: nat :: Count(ps, p) <= if Lent(c, p) then 1 else 0
    ensures forall i | 0 <= i < |ps| :: Lent(c, ps[i])
    ensures Distinct(ObjectsAt(c, ps)) && Members(ObjectsAt(c, ps)) <= Outs(c)
  {
    hide Lent, Count, Outs;
    forall i | 0 <= i < |ps|
      ensures Lent(c, ps[i])
    {
      CountIn(ps, i);
    }
    var objs := ObjectsAt(c, ps);
    forall i, j | 0 <= i < j < |objs|
      ensures objs[i] != objs[j]
    {
      if ps[i] == ps[j] { CountTwice(ps, i, j); }
    }
    forall o | o in Members(objs)
      ensures o in Outs(c)
    {
      var i :| 0 <= i < |objs| && objs[i] == o;
    }
  }

  /** Two objects of a list at one address are the same. */
  lemma OneObject(sc: SizeClass, c: Cfl, h: Heap, x: Object, y: Object)
    requires ListOk(sc, c, h) && Disjoint(h) && Indexed(sc) && x in Outs(c) && y in Outs(c)
    requires Address(x, c.size) == Address(y, c.size)
    ensures x == y
  {
    var p := Address(x, c.size);
    assert Out(c, Object(x.start, x.idx)) && Out(c, Object(y.start, y.idx));
    assert Lends(c, x.start, p) && Lends(c, y.start, p);
    LendsPlace(sc, c, h, x.start, p);
    LendsPlace(sc, c, h, y.start, p);
    IndicesApart(x.idx, y.idx, x.start * PAGE_SIZE, c.size);
  }

  lemma LentOut(c: Cfl, p: nat)
    ensures Lent(c, p) <==> exists o :: o in Outs(c) && Address(o, c.size) == p
  {
    if o :| o in Outs(c) && Address(o, c.size) == p {
      assert Out(c, Object(o.start, o.idx));
      assert Lends(c, o.start, p);
    }
    if Lent(c, p) {
      var o := ObjectAt(c, p);
    }
  }

  /** What a batch changes about the pointers lent: exactly its own. */
  lemma LentBatch(sc: SizeClass, c: Cfl, h: Heap, c': Cfl, objs: seq<Object>, ps: seq<nat>, p: nat)
    requires ListOk(sc, c, h) && Disjoint(h) && Indexed(sc) && c'.size == c.size
    requires |objs| == |ps| && forall i | 0 <= i < |ps| :: ps[i] == Address(objs[i], c.size)
    requires Members(objs) <= Outs(c) && Outs(c') == Outs(c) - Members(objs)
    ensures Lent(c', p) <==> Lent(c, p) && p !in ps
    ensures p in ps ==> Lent(c, p)
  {
    hide ListOk, Lent, Outs, Disjoint, Indexed;
    LentOut(c, p);
    LentOut(c', p);
    if p in ps {
      var i :| 0 <= i < |ps| && ps[i] == p;
      assert objs[i] in Members(objs);
      assert objs[i] in Outs(c);
      if o :| o in Outs(c') && Address(o, c.size) == p {
        OneObject(sc, c, h, o, objs[i]);
      }
    } else if o :| o in Outs(c) && Address(o, c.size) == p {
      assert forall i | 0 <= i < |ps| :: ps[i] in ps;
      assert o in Outs(c');
    }
  }

  lemma DistinctCount(c: Cfl, objs: seq<Object>, ps: seq<nat>, sc: SizeClass, h: Heap, p: nat)
    requires ListOk(sc, c, h) && Disjoint(h) && Indexed(sc)
    requires |objs| == |ps| && forall i | 0 <= i < |ps| :: ps[i] == Address(objs[i], c.size)
    requires Members(objs) <= Outs(c) && Distinct(objs)
    ensures Count(ps, p) == if p in ps then 1 else 0
  {
    hide ListOk, Outs, Disjoint, Indexed, Count;
    forall i, j | 0 <= i < j < |ps|
      ensures ps[i] != ps[j]
    {
      assert objs[i] in Members(objs) && objs[j] in Members(objs);
      assert objs[i] in Outs(c) && objs[j] in Outs(c);
      if ps[i] == ps[j] { OneObject(sc, c, h, objs[i], objs[j]); }
    }
    CountDistinct(ps, p);
  }

  // ---- moves ----

  lemma Stored(c: Cfl, cached: seq<nat>, stack: seq<nat>, user: multiset<nat>, ps: seq<nat>, k: nat)
    requires Balanced(c, cached, stack, user, ps) && k <= |ps|
    ensures Balanced(c, cached + ps[..k], stack, user, ps[k..])
  {
    hide Count, Lent;
    forall p: nat
      ensures Count(cached + ps[..k], p) + Count(stack, p) + user[p] + Count(ps[k..], p) == if Lent(c, p) then 1 else 0
    {
      CountSplit(ps, k, p);
      CountJoin(cached, ps[..k], p);
    }
  }

  /** Loose pointers are a batch the list can take back. */
  lemma LooseBatch(c: Cfl, cached: seq<nat>, stack: seq<nat>, user: multiset<nat>, ps: seq<nat>)
    requires Balanced(c, cached, stack, user, ps)
    ensures forall i | 0 <= i < |ps| :: Lent(c, ps[i])
    ensures Distinct(ObjectsAt(c, ps)) && Members(ObjectsAt(c, ps)) <= Outs(c)
  {
    hide Count, Lent;
    BatchOf(c, ps);
  }

  /** Taking loose pointers back leaves none loose. */
  lemma GivenBack(sc: SizeClass, c: Cfl, h: Heap, c': Cfl, cached: seq<nat>, stack: seq<nat>, user: multiset<nat>,
                  ps: seq<nat>)
    requires ListOk(sc, c, h) && Disjoint(h) && Indexed(sc) && c'.size == c.size
    requires Balanced(c, cached, stack, user, ps)
    requires (forall i | 0 <= i < |ps| :: Lent(c, ps[i])) && Outs(c') == Outs(c) - Members(ObjectsAt(c, ps))
    ensures Balanced(c', cached, stack, user, [])
  {
    hide ListOk, Count, Lent, Outs, Disjoint, Indexed;
    LooseBatch(c, cached, stack, user, ps);
    var objs := ObjectsAt(c, ps);
    forall p: nat
      ensures Count(cached, p) + Count(stack, p) + user[p] + Count([], p) == if Lent(c', p) then 1 else 0
    {
      LentBatch(sc, c, h, c', objs, ps, p);
      DistinctCount(c, objs, ps, sc, h, p);
      CountNone(p);
    }
  }

  /** Fetched objects become loose. */
  lemma Fetched(sc: SizeClass, c: Cfl, c': Cfl, h': Heap, objs: seq<Object>, cached: seq<nat>, stack: seq<nat>,
                user: multiset<nat>, ps: seq<nat>)
    requires ListOk(sc, c', h') && Disjoint(h') && Indexed(sc) && c'.size == c.size
    requires Balanced(c, cached, stack, user, [])
    requires |objs| == |ps| && forall i | 0 <= i < |ps| :: ps[i] == Address(objs[i], c'.size)
    requires Distinct(objs) && Members(objs) !! Outs(c) && Outs(c') == Outs(c) + Members(objs)
    ensures Balanced(c', cached, stack, user, ps)
  {
    hide ListOk, Count, Lent, Outs, Disjoint, Indexed, Distinct;
    assert Outs(c) == Outs(c') - Members(objs);
    forall p: nat
      ensures Count(cached, p) + Count(stack, p) + user[p] + Count(ps, p) == if Lent(c', p) then 1 else 0
    {
      LentBatch(sc, c', h', c, objs, ps, p);
      DistinctCount(c', objs, ps, sc, h', p);
      CountNone(p);
    }
  }

  /** Pointers taken off the cache become loose. */
  lemma Removed(c: Cfl, cached: seq<nat>, stack: seq<nat>, user: multiset<nat>, ps: seq<nat>)
    requires Balanced(c, cached + ps, stack, user, [])
    ensures Balanced(c, cached, stack, user, ps)
  {
    hide Count, Lent;
    forall p: nat
      ensures Count(cached, p) + Count(stack, p) + user[p] + Count(ps, p) == if Lent(c, p) then 1 else 0
    {
      CountJoin(cached, ps, p);
      CountNone(p);
    }
  }

  /** The last loose pointer goes to the caller. */
  lemma Delivered(c: Cfl, cached: seq<nat>, stack: seq<nat>, user: multiset<nat>, ps: seq<nat>, q: nat)
    requires Balanced(c, cached, stack, user, ps + [q])
    ensures Balanced(c, cached, stack, user + multiset{q}, ps) && Lent(c, q) && q !in user
  {
    hide Count, Lent;
    CountOne(q, q);
    CountJoin(ps, [q], q);
    forall p: nat
      ensures Count(cached, p) + Count(stack, p) + (user + multiset{q})[p] + Count(ps, p) == if Lent(c, p) then 1 else 0
    {
      CountJoin(ps, [q], p);
      CountOne(q, p);
    }
  }

  /** A caller's pointer becomes loose. */
  lemma Handed(c: Cfl, cached: seq<nat>, stack: seq<nat>, user: multiset<nat>, ps: seq<nat>, q: nat)
    requires Balanced(c, cached, stack, user, ps) && q in user
    ensures Balanced(c, cached, stack, user - multiset{q}, ps + [q]) && Lent(c, q)
  {
    hide Count, Lent;
    forall p: nat
      ensures Count(cached, p) + Count(stack, p) + (user - multiset{q})[p] + Count(ps + [q], p)
              == if Lent(c, p) then 1 else 0
    {
      CountJoin(ps, [q], p);
      CountOne(q, p);
    }
  }

  /** A push moves the last loose pointer onto the stack; a pop moves it back. */
  lemma Stacked(c: Cfl, cached: seq<nat>, stack: seq<nat>, user: multiset<nat>, ps: seq<nat>, q: nat)
    ensures Balanced(c, cached, stack + [q], user, ps) <==> Balanced(c, cached, stack, user, ps + [q])
  {
    hide Lent, Count;
    forall p: nat
      ensures Count(stack + [q], p) + Count(ps, p) == Count(stack, p) + Count(ps + [q], p)
    {
      CountJoin(stack, [q], p);
      CountJoin(ps, [q], p);
    }
    SameBalance(c, cached, stack + [q], stack, user, ps, ps + [q]);
    SameBalance(c, cached, stack, stack + [q], user, ps + [q], ps);
  }

  lemma SameBalance(c: Cfl, cached: seq<nat>, stack: seq<nat>, stack': seq<nat>, user: multiset<nat>, ps: seq<nat>,
                    ps': seq<nat>)
    requires forall p: nat :: Count(stack, p) + Count(ps, p) == Count(stack', p) + Count(ps', p)
    ensures Balanced(c, cached, stack, user, ps) ==> Balanced(c, cached, stack', user, ps')
  {
    hide Lent, Count;
  }

  lemma NotNull(sc: SizeClass, c: Cfl, h: Heap, p: nat)
    requires ListOk(sc, c, h) && Indexed(sc) && Lent(c, p) && !Managed(h, 0)
    ensures p != 0
  {
    var a: nat :| Lends(c, a, p);
    LendsPlace(sc, c, h, a, p);
  }

  // ---- what callers stored ----

  /** A change of memory that keeps the blocks of `size` bytes that callers hold, and all that heap h has
      in use for other sizes. */
  ghost predicate Spared(held: multiset<nat>, size: nat, h: Heap, m: Memory, m': Memory) {
    && (forall p: nat, a: nat | p in held && p <= a < p + size :: Word(m', a) == Word(m, a))
    && forall x: nat, a: nat | InSpan(h, x, a / PAGE_SIZE) && InUse(h, x) && h[x].size != size ::
         Word(m', a) == Word(m, a)
  }

  lemma SparedSame(held: multiset<nat>, size: nat, h: Heap, m: Memory)
    ensures Spared(held, size, h, m, m) && SizesStay(h, h, size)
  {
  }

  lemma SparedJoin(held: multiset<nat>, held1: multiset<nat>, size: nat, h: Heap, h1: Heap, h2: Heap,
                   m: Memory, m1: Memory, m2: Memory)
    requires Spared(held, size, h, m, m1) && SizesStay(h, h1, size)
    requires Spared(held1, size, h1, m1, m2) && SizesStay(h1, h2, size)
    requires forall p | p in held :: p in held1
    ensures Spared(held, size, h, m, m2) && SizesStay(h, h2, size)
  {
    forall x: nat, a: nat | InSpan(h, x, a / PAGE_SIZE) && InUse(h, x) && h[x].size != size
      ensures Word(m2, a) == Word(m, a)
    {
      assert InSpan(h1, x, a / PAGE_SIZE);
    }
    forall p: nat, a: nat | p in held && p <= a < p + size
      ensures Word(m2, a) == Word(m, a)
    {
      assert p in held1;
    }
  }

  lemma FewerSpared(held: multiset<nat>, held1: multiset<nat>, size: nat, h: Heap, m: Memory, m': Memory)
    requires Spared(held1, size, h, m, m') && forall p | p in held :: p in held1
    ensures Spared(held, size, h, m, m')
  {
  }

  /** Calls of list c that keep the objects `outs`, and write only on pages the list has in heap h1. */
  lemma SparedBy(held: multiset<nat>, sc: SizeClass, c: Cfl, outs: iset<Object>, d: Cfl, h: Heap, h1: Heap,
                 m: Memory, m': Memory)
    requires Preserves(outs, c, m, m') && ListOk(sc, c, h1) && Disjoint(h1) && SizesStay(h, h1, sc.size)
    requires d.size == sc.size && Outs(d) == outs && forall p | p in held :: Lent(d, p)
    ensures Spared(held, sc.size, h, m, m')
  {
    hide Lent, CflOk, Disjoint;
    forall p: nat, a: nat | p in held && p <= a < p + sc.size
      ensures Word(m', a) == Word(m, a)
    {
      var o := ObjectAt(d, p);
      assert o in outs && InObject(a, o.start * PAGE_SIZE, c.size, o.idx);
    }
    forall x: nat, a: nat | InSpan(h, x, a / PAGE_SIZE) && InUse(h, x) && h[x].size != sc.size
      ensures Word(m', a) == Word(m, a)
    {
      OffPages(sc, c, h1, x, a);
    }
  }

  /** A page in use for another size is none of the list's. */
  lemma OffPages(sc: SizeClass, c: Cfl, h: Heap, x: nat, a: nat)
    requires ListOk(sc, c, h) && Disjoint(h) && InSpan(h, x, a / PAGE_SIZE) && h[x].size != sc.size
    ensures !OnPages(c, a)
  {
    if k :| 0 <= k < |c.spans| && c.spans[k].start <= a / PAGE_SIZE < c.spans[k].start + c.pages {
      assert InSpan(h, c.spans[k].start, a / PAGE_SIZE);
    }
  }

  // ---- one size class on one CPU ----

  class ClassAllocator {
    const table: seq<SizeClass>
    const sc: nat
    const list: CentralFreeList
    const cache: TransferCache
    const slab: Slabs

    ghost var user: multiset<nat>   // what callers hold

    /** The three structures are sound and of the same class. */
    ghost predicate Sound()
      reads this, list, list.objs, list.ram, list.pageHeap, list.pageHeap.freeLists, list.pageHeap.spans.Values
      reads cache, slab, slab.offsets, slab.capacities, slab.currents, slab.pointers
    {
      && WellOrdered(table) && Divisible(table) && 1 <= sc < |table| && table[sc].batchSize <= MAX_BATCH_SIZE
      && slab.table == table && list.size == table[sc].size && list.pages == table[sc].pages > 0
      && cache.slots != slab.pointers
      && list.Valid() && cache.Valid() && slab.Valid() && !Managed(list.pageHeap.h, 0)
    }

    ghost predicate Holds(loose: seq<nat>)
      requires Sound()
      reads this, list, list.objs, list.ram, list.pageHeap, list.pageHeap.freeLists, list.pageHeap.spans.Values
      reads cache, cache.slots, slab, slab.offsets, slab.capacities, slab.currents, slab.pointers
    {
      Balanced(list.st, cache.Contents(), slab.Stack(sc), user, loose)
    }

    /** Between calls no pointer is loose. */
    ghost predicate Valid()
      reads this, list, list.objs, list.ram, list.pageHeap, list.pageHeap.freeLists, list.pageHeap.spans.Values
      reads cache, cache.slots, slab, slab.offsets, slab.capacities, slab.currents, slab.pointers
    {
      Sound() && Holds([])
    }

    /** Empty structures over a list that has lent nothing. */
    constructor (table: seq<SizeClass>, sc: nat, list: CentralFreeList)
      requires WellOrdered(table) && Divisible(table) && 1 <= sc < |table| && table[sc].batchSize <= MAX_BATCH_SIZE
      requires list.size == table[sc].size && list.pages == table[sc].pages > 0
      requires list.Valid() && list.st.spans == [] && !Managed(list.pageHeap.h, 0)
      ensures Valid() && this.table == table && this.sc == sc && this.list == list && user == multiset{}
    {
      this.table, this.sc, this.list, user := table, sc, list, multiset{};
      cache := new TransferCache();
      slab := new Slabs(table);
      new;
      forall p: nat
        ensures !Lent(list.st, p)
      {
        LentOut(list.st, p);
      }
    }

    /** The list as the pointers it lends see it. */
    lemma ListFacts()
      requires list.Valid() && 1 <= sc < |table| && list.size == table[sc].size && list.pages == table[sc].pages > 0
      requires table[sc].size > 0
      ensures ListOk(table[sc], list.st, list.pageHeap.h) && Disjoint(list.pageHeap.h) && Indexed(table[sc])
      ensures list.st.size == list.size && CflOk(list.st)
    {
    }

    /** What the callers in `held` stored, and all that is in use for other sizes, is as it was. */
    twostate predicate Spares(held: multiset<nat>)
      reads list, list.ram, list.pageHeap
    {
      && Spared(held, list.size, old(list.pageHeap.h), old(list.ram.words), list.ram.words)
      && SizesStay(old(list.pageHeap.h), list.pageHeap.h, list.size)
    }

    lemma UsersLent(cached: seq<nat>, stack: seq<nat>, loose: seq<nat>)
      requires Balanced(list.st, cached, stack, user, loose)
      ensures forall p | p in user :: Lent(list.st, p)
    {
      hide Lent, Count;
      forall p | p in user
        ensures Lent(list.st, p)
      {
        assert user[p] > 0;
      }
    }

    /** deallocate_batch of loose pointers. */
    method GiveList(ps: seq<nat>)
      requires Sound() && Holds(ps)
      modifies list, list.objs, list.ram, list.pageHeap, list.pageHeap.freeLists, list.pageHeap.FreeSpans()
      ensures Valid() && slab.Stack(sc) == old(slab.Stack(sc)) && cache.Contents() == old(cache.Contents())
      ensures Spares(user)
      ensures forall s | s in list.objs :: s in old(list.objs)
      ensures forall s | s in list.pageHeap.FreeSpans() ::
                s in old(list.pageHeap.FreeSpans()) || s in old(list.objs) || fresh(s)
    {
      hide Balanced, CentralFreeList.Valid, CentralFreeList.Inv, Lent, WellOrdered, FreeAll, Members, Outs, CflOk,
           Managed, ListOk, Disjoint, Indexed, Pages, Spared, SizesStay, Untouched, Preserves;
      SizePositive();
      ListFacts();
      ghost var c, h, m, cached, stack := list.st, list.pageHeap.h, list.ram.words, cache.Contents(), slab.Stack(sc);
      LooseBatch(c, cached, stack, user, ps);
      forall i | 0 <= i < |ps|
        ensures ps[i] != 0
      {
        NotNull(table[sc], c, h, ps[i]);
      }
      list.DeallocateBatch(ps, ObjectsAt(c, ps));
      ListFacts();
      FreedOuts(c, ObjectsAt(c, ps));
      PageZero(h, list.pageHeap.h);
      assert slab.Stack(sc) == stack && cache.Contents() == cached;
      GivenBack(table[sc], c, h, list.st, cached, stack, user, ps);
      UsersLent(cached, stack, []);
      SparedSame(user, list.size, h, m);
      SparedBy(user, table[sc], c, Outs(list.st), list.st, h, h, m, list.ram.words);
    }

    lemma SizePositive()
      requires WellOrdered(table) && 1 <= sc < |table|
      ensures table[sc].size > 0
    {
    }

    lemma FreedOuts(c: Cfl, objs: seq<Object>)
      requires CflOk(c) && Distinct(objs) && Members(objs) <= Outs(c)
      ensures Outs(FreeAll(c, objs)) == Outs(c) - Members(objs)
    {
      BatchSafe(c, objs);
    }

    lemma PageZero(h: Heap, h': Heap)
      requires Pages(h') == Pages(h) && !Managed(h, 0)
      ensures !Managed(h', 0)
    {
      assert 0 in Pages(h) <==> Managed(h, 0);
      assert 0 in Pages(h') <==> Managed(h', 0);
    }

    lemma Slices(s: seq<nat>, i: nat, j: nat)
      requires i <= j <= |s|
      ensures s[..i] == s[..j][..i] && s[i..j] == s[..j][i..]
    {
    }

    /** InsertRange of a loose batch. */
    method StoreBatch(batch: array<nat>, count: nat) returns (inserted: nat)
      requires Sound() && count <= batch.Length && batch != cache.slots && batch != slab.pointers
               && Holds(batch[..count])
      modifies cache`usedSlots, cache.slots
      ensures inserted <= count && Sound() && Holds(batch[inserted..count]) && slab.Stack(sc) == old(slab.Stack(sc))
      ensures |cache.Contents()| == |old(cache.Contents())| + inserted
      ensures PutOn(batch[..count], old(cache.Contents()), cache.Contents())
    {
      hide Balanced, CentralFreeList.Valid, Slabs.Valid, WellOrdered, Divisible, Managed;
      ghost var stack, cached, b := slab.Stack(sc), cache.Contents(), batch[..];
      inserted := cache.InsertRange(batch, count);
      assert batch[..] == b && slab.Stack(sc) == stack;
      Stored(list.st, cached, stack, user, b[..count], inserted);
      Slices(b, inserted, count);
      StoredOn(b, count, inserted, cached, cache.Contents());
    }

    lemma StoredOn(b: seq<nat>, count: nat, inserted: nat, cached: seq<nat>, cached': seq<nat>)
      requires count <= |b| && |cached| <= TRANSFER_CACHE_CAPACITY && inserted <= count
      requires inserted == count || |cached| + inserted == TRANSFER_CACHE_CAPACITY
      requires |cached| + inserted <= TRANSFER_CACHE_CAPACITY
      requires cached' == cached + b[..inserted]
      ensures PutOn(b[..count], cached, cached')
    {
      assert b[..count][..inserted] == b[..inserted];
    }

    /** The list is as it was, and so is the page heap. */
    twostate predicate ListSame()
      reads list, list.pageHeap
    {
      list.st == old(list.st) && list.pageHeap.h == old(list.pageHeap.h)
    }

    /** release_batch: to the transfer cache what fits there, the rest to the list. */
    method ReleaseBatch(batch: array<nat>, count: nat)
      requires Sound() && count <= batch.Length && batch != cache.slots && batch != slab.pointers
               && Holds(batch[..count])
      modifies cache`usedSlots, cache.slots
      modifies list, list.objs, list.ram, list.pageHeap, list.pageHeap.freeLists, list.pageHeap.FreeSpans()
      ensures Valid() && slab.Stack(sc) == old(slab.Stack(sc))
      ensures PutOn(old(batch[..count]), old(cache.Contents()), cache.Contents())
      ensures |cache.Contents()| == |old(cache.Contents())| + count ==> ListSame()
      ensures Spares(user)
      ensures forall s | s in list.objs :: s in old(list.objs)
      ensures forall s | s in list.pageHeap.FreeSpans() ::
                s in old(list.pageHeap.FreeSpans()) || s in old(list.objs) || fresh(s)
    {
      hide Holds, Slabs.Valid, CentralFreeList.Valid, Managed, WellOrdered, Divisible, Spared, SizesStay;
      SparedSame(user, list.size, list.pageHeap.h, list.ram.words);
      var inserted := StoreBatch(batch, count);
      if inserted < count {
        GiveList(batch[inserted..count]);
      } else {
        assert batch[inserted..count] == [];
      }
    }

    /** What the OS offers to the list: fresh runs of pages without a page in common, none at page 0. */
    ghost predicate Offers(os: seq<Option<nat>>)
      reads list, list.pageHeap
    {
      && (forall i | 0 <= i < |os| :: os[i].Some? ==> FreshPages(list.pageHeap.h, os[i].value, list.pages))
      && (forall i, j | 0 <= i < j < |os| ::
            os[i].Some? && os[j].Some? ==> Range(os[i].value, list.pages) !! Range(os[j].value, list.pages))
      && forall i | 0 <= i < |os| :: os[i] != Some(0)
    }

    /** The list has no object left and neither page heap nor OS can help. */
    ghost predicate NothingLeft(os: Option<nat>)
      reads list, list.pageHeap
    {
      Spent(list.st, list.pageHeap.h, os)
    }

    /** allocate_batch: the objects become loose. */
    method TakeList(count: nat, os: seq<Option<nat>>) returns (ps: seq<nat>)
      requires Valid() && |os| == count && Offers(os)
      modifies list, list.objs, list.ram, list.pageHeap, list.pageHeap.freeLists, list.pageHeap.FreeSpans()
      ensures Sound() && Holds(ps) && |ps| <= count
      ensures |ps| < count ==> NothingLeft(os[|ps|])
      ensures Spares(user) && forall p | p in ps :: !Lent(old(list.st), p)
      ensures slab.Stack(sc) == old(slab.Stack(sc)) && cache.Contents() == old(cache.Contents())
      ensures forall s | s in list.objs :: s in old(list.objs) || fresh(s) || s in old(list.pageHeap.FreeSpans())
      ensures forall s | s in list.pageHeap.FreeSpans() :: s in old(list.pageHeap.FreeSpans()) || fresh(s)
    {
      hide Balanced, CentralFreeList.Valid, CentralFreeList.Inv, Lent, WellOrdered, Members, Outs, CflOk, Managed,
           ListOk, Disjoint, Indexed, Slabs.Valid, HasAvailable, FreshPages, Range, Starved, Preserves, Spared,
           Untouched, SizesStay;
      SizePositive();
      ListFacts();
      ghost var c, h, m, cached, stack := list.st, list.pageHeap.h, list.ram.words, cache.Contents(), slab.Stack(sc);
      ghost var objs;
      UsersLent(cached, stack, []);
      ps, objs := list.AllocateBatch(count, os);
      ListFacts();
      assert slab.Stack(sc) == stack && cache.Contents() == cached;
      Fetched(table[sc], c, list.st, list.pageHeap.h, objs, cached, stack, user, ps);
      NewlyOut(table[sc], c, list.st, list.pageHeap.h, objs, ps);
      KeptSizes(h, list.pageHeap.h);
      SparedBy(user, table[sc], list.st, Outs(c), c, h, list.pageHeap.h, m, list.ram.words);
    }

    lemma NewlyOut(sc: SizeClass, c: Cfl, c': Cfl, h': Heap, objs: seq<Object>, ps: seq<nat>)
      requires ListOk(sc, c', h') && Disjoint(h') && Indexed(sc) && c'.size == c.size
      requires |objs| == |ps| && forall i | 0 <= i < |ps| :: ps[i] == Address(objs[i], c'.size)
      requires Members(objs) !! Outs(c) && Outs(c') == Outs(c) + Members(objs)
      ensures forall p | p in ps :: !Lent(c, p)
    {
      hide ListOk, Lent, Outs, Disjoint, Indexed;
      assert Outs(c) == Outs(c') - Members(objs);
      forall p | p in ps
        ensures !Lent(c, p)
      {
        LentBatch(sc, c', h', c, objs, ps, p);
      }
    }

    lemma KeptSizes(h: Heap, h': Heap)
      requires exists live, live' :: Untouched(h, live, h', live')
      ensures SizesStay(h, h', list.size)
    {
    }

    /** refill_batch: from the transfer cache, or from the list when that is empty. */
    method RefillBatch(batch: array<nat>, count: nat, os: seq<Option<nat>>) returns (got: nat)
      requires Valid() && |os| == count <= batch.Length && Offers(os) && batch != cache.slots && batch != slab.pointers
      modifies cache`usedSlots, batch
      modifies list, list.objs, list.ram, list.pageHeap, list.pageHeap.freeLists, list.pageHeap.FreeSpans()
      ensures Sound() && got <= count && Holds(batch[..got]) && slab.Stack(sc) == old(slab.Stack(sc))
      ensures if count > 0 && old(cache.Contents()) != [] then
                && TakenOff(batch[..got], count, old(cache.Contents()), cache.Contents())
                && got > 0 && ListSame()
              else
                && cache.Contents() == old(cache.Contents())
                && (forall p | p in batch[..got] :: !Lent(old(list.st), p))
                && (got < count ==> NothingLeft(os[got]))
      ensures Spares(user)
      ensures forall s | s in list.objs :: s in old(list.objs) || fresh(s) || s in old(list.pageHeap.FreeSpans())
      ensures forall s | s in list.pageHeap.FreeSpans() :: s in old(list.pageHeap.FreeSpans()) || fresh(s)
    {
      hide Balanced, CentralFreeList.Valid, WellOrdered, Divisible, Managed, Slabs.Valid, NothingLeft, Offers, Spared;
      hide SizesStay, Lent, CentralFreeList.Inv;
      ghost var stack, cached := slab.Stack(sc), cache.Contents();
      SparedSame(user, list.size, list.pageHeap.h, list.ram.words);
      got := cache.RemoveRange(batch, count);
      assert cached[|cached| - got..] == batch[..got] && cached[..|cached| - got] == cache.Contents();
      assert slab.Stack(sc) == stack;
      Removed(list.st, cache.Contents(), stack, user, batch[..got]);
      if got == 0 {
        assert batch[..got] == [];
        var ps := TakeList(count, os);
        got := |ps|;
        forall i | 0 <= i < got {
          batch[i] := ps[i];
        }
        assert batch[..got] == ps;
      }
    }

    /** slab_push of the last loose pointer. */
    method PushLoose(ghost ps: seq<nat>, q: nat) returns (ok: bool)
      requires Sound() && Holds(ps + [q])
      modifies slab.currents, slab.pointers
      ensures Sound() && Holds(if ok then ps else ps + [q]) && cache.Contents() == old(cache.Contents())
      ensures ok == (|old(slab.Stack(sc))| < Capacity(table, sc))
      ensures slab.Stack(sc) == if ok then old(slab.Stack(sc)) + [q] else old(slab.Stack(sc))
    {
      hide Balanced, CentralFreeList.Valid, WellOrdered, Managed, Slabs.Valid;
      ghost var stack, cached := slab.Stack(sc), cache.Contents();
      Stacked(list.st, cached, stack, user, ps, q);
      ok := slab.Push(sc, q);
      assert cache.Contents() == cached;
    }

    /** slab_pop into the loose pointers. */
    method PopLoose(ghost ps: seq<nat>) returns (ptr: Option<nat>)
      requires Sound() && Holds(ps)
      modifies slab.currents
      ensures Sound() && Holds(if ptr.Some? then ps + [ptr.value] else ps) && cache.Contents() == old(cache.Contents())
      ensures ptr.None? <==> old(slab.Stack(sc)) == []
      ensures if ptr.None? then slab.Stack(sc) == [] else old(slab.Stack(sc)) == slab.Stack(sc) + [ptr.value]
    {
      hide Balanced, CentralFreeList.Valid, WellOrdered, Managed, Slabs.Valid;
      ghost var stack, cached := slab.Stack(sc), cache.Contents();
      ptr := slab.Pop(sc);
      assert cache.Contents() == cached;
      if ptr.Some? {
        assert stack == slab.Stack(sc) + [ptr.value];
        Stacked(list.st, cached, slab.Stack(sc), user, ps, ptr.value);
      }
    }

    /** The caller gets the last loose pointer. */
    ghost method Deliver(ps: seq<nat>, q: nat)
      requires Sound() && Holds(ps + [q])
      modifies this`user
      ensures Sound() && Holds(ps) && user == old(user) + multiset{q} && Lent(list.st, q) && q !in old(user)
    {
      hide Balanced, CentralFreeList.Valid, WellOrdered, Managed, Slabs.Valid, Lent;
      Delivered(list.st, cache.Contents(), slab.Stack(sc), user, ps, q);
      user := user + multiset{q};
    }

    /** Pushes the first `count` pointers of the batch, last first, as far as there is room. */
    method PushBatch(batch: array<nat>, count: nat) returns (got: nat)
      requires Sound() && count <= batch.Length && batch != slab.pointers && Holds(batch[..count])
      modifies slab.currents, slab.pointers
      ensures got <= count && Sound() && Holds(batch[..got]) && batch[..] == old(batch[..])
      ensures |slab.Stack(sc)| + got == |old(slab.Stack(sc))| + count
      ensures PushedBack(old(batch[..count]), Capacity(table, sc), old(slab.Stack(sc)), slab.Stack(sc))
      ensures cache.Contents() == old(cache.Contents())
    {
      hide Balanced, CentralFreeList.Valid, WellOrdered, Managed, Slabs.Valid, Holds, Capacity, Divisible;
      hide CentralFreeList.Inv, PushedBack;
      ghost var b, stack := batch[..], slab.Stack(sc);
      StackFits();
      Slices(b, count, count);
      got := count;
      while got > 0
        invariant got <= count && batch[..] == b && Sound() && Holds(b[..got])
        invariant slab.Stack(sc) == stack + Backwards(b, got, count) && |slab.Stack(sc)| <= Capacity(table, sc)
        invariant cache.Contents() == old(cache.Contents())
      {
        LastOf(b, got);
        LastBackwards(b, got, count);
        var ok := PushLoose(b[..got - 1], batch[got - 1]);
        if !ok { break; }
        StackFits();
        got := got - 1;
      }
      Slices(b, got, got);
      PushedBy(b, count, got, Capacity(table, sc), stack, slab.Stack(sc));
    }

    lemma PushedBy(b: seq<nat>, count: nat, got: nat, capacity: nat, stack: seq<nat>, stack': seq<nat>)
      requires got <= count <= |b| && |stack'| <= capacity && (got == 0 || |stack'| == capacity)
      requires stack' == stack + Backwards(b, got, count)
      ensures PushedBack(b[..count], capacity, stack, stack')
    {
      assert Backwards(b[..count], got, count) == Backwards(b, got, count);
    }

    /** Pushes a batch as far as there is room; the rest goes to the transfer cache and the list. */
    method Republish(batch: array<nat>, count: nat)
      requires Sound() && count <= batch.Length && batch != cache.slots && batch != slab.pointers
               && Holds(batch[..count])
      modifies cache`usedSlots, cache.slots, slab.currents, slab.pointers
      modifies list, list.objs, list.ram, list.pageHeap, list.pageHeap.freeLists, list.pageHeap.FreeSpans()
      ensures Valid() && Spares(user)
      ensures Republished(old(batch[..count]), Capacity(table, sc), old(cache.Contents()), old(slab.Stack(sc)),
                          cache.Contents(), slab.Stack(sc))
      ensures |slab.Stack(sc)| == |old(slab.Stack(sc))| + count ==> ListSame()
    {
      hide Balanced, CentralFreeList.Valid, WellOrdered, Managed, Slabs.Valid, Holds, Capacity, Divisible;
      hide CentralFreeList.Inv, Spared, SizesStay, PutOn, PushedBack;
      SparedSame(user, list.size, list.pageHeap.h, list.ram.words);
      CacheFits();
      ghost var b := batch[..];
      var got := PushBatch(batch, count);
      Slices(b, got, count);
      NothingPut(b[..got], cache.Contents());
      if got > 0 {
        ReleaseBatch(batch, got);
      }
    }

    lemma NothingPut(b: seq<nat>, cached: seq<nat>)
      requires |cached| <= TRANSFER_CACHE_CAPACITY
      ensures b == [] ==> PutOn(b, cached, cached)
    {
    }

    lemma CacheFits()
      requires Sound()
      ensures |cache.Contents()| <= TRANSFER_CACHE_CAPACITY
    {
    }

    lemma StackFits()
      requires Sound()
      ensures |slab.Stack(sc)| <= Capacity(table, sc)
    {
    }

    lemma LastOf(b: seq<nat>, n: nat)
      requires 0 < n <= |b|
      ensures b[..n] == b[..n - 1] + [b[n - 1]]
    {
    }

    lemma InTable()
      requires Sound()
      ensures 1 <= sc < |table| && 1 <= table[sc].batchSize <= MAX_BATCH_SIZE
    {
    }

    /** slab_pop for a caller. */
    method PopForCaller() returns (ptr: Option<nat>)
      requires Valid()
      modifies this`user, slab.currents
      ensures Valid() && cache.Contents() == old(cache.Contents())
      ensures ptr.None? ==> old(slab.Stack(sc)) == slab.Stack(sc) == [] && user == old(user)
      ensures ptr.Some? ==> old(slab.Stack(sc)) == slab.Stack(sc) + [ptr.value]
      ensures ptr.Some? ==> user == old(user) + multiset{ptr.value} && ptr.value !in old(user)
    {
      hide Balanced, CentralFreeList.Valid, WellOrdered, Managed, Slabs.Valid, Holds, Lent, Capacity, Divisible;
      hide CentralFreeList.Inv;
      ptr := PopLoose([]);
      if ptr.Some? { Deliver([], ptr.value); }
    }

    /** The caller gets the last pointer of a loose batch, and the others are republished. */
    method ServeLast(batch: array<nat>, got: nat) returns (ptr: nat)
      requires Sound() && 1 <= got <= batch.Length && batch != cache.slots && batch != slab.pointers
               && Holds(batch[..got])
      modifies this`user, cache`usedSlots, cache.slots, slab.currents, slab.pointers
      modifies list, list.objs, list.ram, list.pageHeap, list.pageHeap.freeLists, list.pageHeap.FreeSpans()
      ensures Valid() && Spares(old(user)) && ptr == old(batch[got - 1])
      ensures user == old(user) + multiset{ptr} && ptr !in old(user)
      ensures Republished(old(batch[..got - 1]), Capacity(table, sc), old(cache.Contents()), old(slab.Stack(sc)),
                          cache.Contents(), slab.Stack(sc))
      ensures |slab.Stack(sc)| == |old(slab.Stack(sc))| + got - 1 ==> ListSame()
    {
      hide Balanced, CentralFreeList.Valid, WellOrdered, Managed, Slabs.Valid, Holds, Lent, Capacity, Divisible;
      hide CentralFreeList.Inv, Republished, Spared, SizesStay;
      SparedSame(user, list.size, list.pageHeap.h, list.ram.words);
      ghost var b := batch[..];
      ptr := batch[got - 1];
      LastOf(b, got);
      Deliver(batch[..got - 1], ptr);
      ghost var h, m := list.pageHeap.h, list.ram.words;
      Republish(batch, got - 1);
      SparedJoin(old(user), user, list.size, h, h, list.pageHeap.h, m, m, list.ram.words);
    }

    /** An empty slab has room for a whole batch. */
    lemma EmptyRoom()
      requires Sound()
      ensures table[sc].batchSize <= Capacity(table, sc)
    {
      hide Capacity, WellOrdered, CentralFreeList.Valid;
      InTable();
      CapacityLaws(table, sc);
    }

    lemma RefilledBy(batch: seq<nat>, batchSize: nat, capacity: nat, cached: seq<nat>, rest: seq<nat>,
                     cached': seq<nat>, stack': seq<nat>)
      requires 1 <= |batch| <= batchSize <= capacity
      requires if cached != [] then TakenOff(batch, batchSize, cached, rest) else rest == []
      requires Republished(batch[..|batch| - 1], capacity, rest, [], cached', stack')
      ensures Refilled(batch, batch[|batch| - 1], batchSize, capacity, cached, cached', stack')
      ensures |stack'| == |batch| - 1
    {
      if cached != [] {
        assert cached[..|cached| - |batch|] == rest;
      }
    }

    /** Where a refill came from: the cache while it had any, and then the list is as it was; else from the list,
        which gave pointers nobody held, fewer than a batch only when that left it with nothing to give. */
    twostate predicate Comes(refill: seq<nat>, os: seq<Option<nat>>, cached: seq<nat>)
      requires 1 <= sc < |table| && |os| == table[sc].batchSize
      reads list, list.pageHeap
    {
      if cached != [] then ListSame()
      else
        && (forall p | p in refill :: !Lent(old(list.st), p))
        && (|refill| < table[sc].batchSize ==> NothingLeft(os[|refill|]))
    }

    /** allocate with nothing on the slab. */
    method Refill(os: seq<Option<nat>>) returns (ptr: Option<nat>, ghost refill: seq<nat>)
      requires Valid() && |os| == table[sc].batchSize && Offers(os) && slab.Stack(sc) == []
      modifies this`user, cache`usedSlots, cache.slots, slab.currents, slab.pointers
      modifies list, list.objs, list.ram, list.pageHeap, list.pageHeap.freeLists, list.pageHeap.FreeSpans()
      ensures Valid() && Spares(old(user))
      ensures ptr.Some? ==> user == old(user) + multiset{ptr.value} && ptr.value !in old(user)
      ensures ptr.None? ==> user == old(user) && old(cache.Contents()) == [] && NothingLeft(os[0])
      ensures ptr.None? ==> slab.Stack(sc) == [] && cache.Contents() == []
      ensures ptr.Some? ==>
                && Refilled(refill, ptr.value, table[sc].batchSize, Capacity(table, sc), old(cache.Contents()),
                            cache.Contents(), slab.Stack(sc))
                && Comes(refill, os, old(cache.Contents()))
    {
      hide Balanced, CentralFreeList.Valid, WellOrdered, Managed, Slabs.Valid, Spent, Holds, Lent, Offers;
      hide Capacity, Divisible, Republished, Spared, SizesStay, CentralFreeList.Inv, TakenOff;
      hide Slabs.Stack, Refilled;
      InTable();
      var batch := new nat[MAX_BATCH_SIZE];
      var got := RefillBatch(batch, table[sc].batchSize, os);
      refill := batch[..got];
      if got == 0 { return None, refill; }
      ghost var h, m, rest := list.pageHeap.h, list.ram.words, cache.Contents();
      EmptyRoom();
      Slices(batch[..], got - 1, got);
      assert refill[..got - 1] == batch[..got - 1];
      assert slab.Stack(sc) == [];
      var last := ServeLast(batch, got);
      ptr := Some(last);
      RefilledBy(refill, table[sc].batchSize, Capacity(table, sc), old(cache.Contents()), rest, cache.Contents(),
                 slab.Stack(sc));
      SparedJoin(old(user), old(user), list.size, old(list.pageHeap.h), h, list.pageHeap.h, old(list.ram.words), m,
                 list.ram.words);
    }

    /** allocate: from the slab, else a batch of which the caller gets the last and the slab the rest. */
    method Allocate(os: seq<Option<nat>>) returns (ptr: Option<nat>, ghost refill: seq<nat>)
      requires Valid() && |os| == table[sc].batchSize && Offers(os)
      modifies this`user, cache`usedSlots, cache.slots, slab.currents, slab.pointers
      modifies list, list.objs, list.ram, list.pageHeap, list.pageHeap.freeLists, list.pageHeap.FreeSpans()
      ensures Valid() && Spares(old(user))
      ensures ptr.Some? ==> user == old(user) + multiset{ptr.value} && ptr.value !in old(user)
      ensures ptr.None? ==>
                && user == old(user) && old(slab.Stack(sc)) == [] && old(cache.Contents()) == [] && NothingLeft(os[0])
                && slab.Stack(sc) == [] && cache.Contents() == []
      ensures old(slab.Stack(sc)) != [] ==>
                && ptr.Some? && old(slab.Stack(sc)) == slab.Stack(sc) + [ptr.value]
                && cache.Contents() == old(cache.Contents()) && list.st == old(list.st)
      ensures old(slab.Stack(sc)) == [] && ptr.Some? ==>
                && Refilled(refill, ptr.value, table[sc].batchSize, Capacity(table, sc), old(cache.Contents()),
                            cache.Contents(), slab.Stack(sc))
                && Comes(refill, os, old(cache.Contents()))
    {
      hide Balanced, CentralFreeList.Valid, WellOrdered, Managed, Slabs.Valid, Spent, Sound, Holds, Lent, Offers;
      hide Capacity, Divisible, Refilled, Spared, SizesStay, CentralFreeList.Inv;
      SparedSame(user, list.size, list.pageHeap.h, list.ram.words);
      refill := [];
      ptr := PopForCaller();
      if ptr.None? { ptr, refill := Refill(os); }
    }

    // ---- deallocate ----

    /** A caller's pointer becomes loose. */
    ghost method Hand(q: nat)
      requires Valid() && q in user
      modifies this`user
      ensures Sound() && Holds([q]) && user == old(user) - multiset{q}
    {
      hide Balanced, CentralFreeList.Valid, WellOrdered, Managed, Slabs.Valid, Lent;
      Handed(list.st, cache.Contents(), slab.Stack(sc), user, [], q);
      assert [] + [q] == [q];
      user := user - multiset{q};
    }

    /** A caller's pointer lies in an in-use span of the class. */
    lemma Traced(q: nat)
      requires Valid() && q in user
      ensures Managed(list.pageHeap.h, q / PAGE_SIZE)
      ensures forall a: nat | InSpan(list.pageHeap.h, a, q / PAGE_SIZE) :: list.pageHeap.h[a].size == table[sc].size
    {
      hide CentralFreeList.Inv, Slabs.Valid, Lent, Count;
      SizePositive();
      ListFacts();
      assert Lent(list.st, q);
      TracedSpan(table[sc], list.st, list.pageHeap.h, q);
    }

    lemma TracedSpan(sc: SizeClass, c: Cfl, h: Heap, q: nat)
      requires ListOk(sc, c, h) && Disjoint(h) && Indexed(sc) && Lent(c, q)
      ensures Managed(h, q / PAGE_SIZE)
      ensures forall a: nat | InSpan(h, a, q / PAGE_SIZE) :: h[a].size == sc.size
    {
      var b: nat :| Lends(c, b, q);
      LendsPlace(sc, c, h, b, q);
    }

    /** One pop of the draining loop. */
    method PopInto(batch: array<nat>, drained: nat) returns (ok: bool)
      requires Sound() && drained < batch.Length && Holds(batch[..drained])
      requires batch != cache.slots && batch != slab.pointers
      requires (batch as object) != slab.currents && (batch as object) != slab.capacities
               && (batch as object) != slab.offsets
      modifies slab.currents, batch
      ensures Sound() && cache.Contents() == old(cache.Contents())
      ensures ok <==> old(slab.Stack(sc)) != []
      ensures ok ==> Holds(batch[..drained + 1]) && old(slab.Stack(sc)) == slab.Stack(sc) + [batch[drained]]
      ensures !ok ==> Holds(batch[..drained]) && slab.Stack(sc) == []
      ensures forall j | 0 <= j < drained :: batch[j] == old(batch[j])
    {
      hide Balanced, CentralFreeList.Valid, WellOrdered, Managed, Slabs.Valid;
      ghost var ps, cached := batch[..drained], cache.Contents();
      var ptr := PopLoose(ps);
      ok := ptr.Some?;
      ghost var stack := slab.Stack(sc);
      if ok {
        batch[drained] := ptr.value;
        assert batch[..drained + 1] == ps + [ptr.value];
      }
      assert slab.Stack(sc) == stack && cache.Contents() == cached;
    }

    /** Pops pointers off the slab into the batch, until it is full or the slab empty. */
    method PopBatch(batch: array<nat>) returns (drained: nat)
      requires Valid() && batch.Length == MAX_BATCH_SIZE && batch != cache.slots && batch != slab.pointers
      requires (batch as object) != slab.currents && (batch as object) != slab.capacities
               && (batch as object) != slab.offsets
      modifies slab.currents, batch
      ensures drained <= batch.Length && drained <= |old(slab.Stack(sc))|
      ensures Sound() && Holds(batch[..drained]) && cache.Contents() == old(cache.Contents())
      ensures drained <= table[sc].batchSize && (drained == table[sc].batchSize || slab.Stack(sc) == [])
      ensures forall j | 0 <= j < drained :: batch[j] == old(slab.Stack(sc))[|old(slab.Stack(sc))| - 1 - j]
      ensures slab.Stack(sc) == old(slab.Stack(sc))[..|old(slab.Stack(sc))| - drained]
    {
      hide Balanced, CentralFreeList.Valid, WellOrdered, Divisible, Managed, Slabs.Valid, Holds;
      ghost var stack := slab.Stack(sc);
      drained := 0;
      assert batch[..drained] == [] && stack == stack[..|stack|];
      while drained < table[sc].batchSize
        invariant 0 <= drained <= table[sc].batchSize && drained <= |stack| && Sound() && Holds(batch[..drained])
        invariant forall j | 0 <= j < drained :: batch[j] == stack[|stack| - 1 - j]
        invariant slab.Stack(sc) == stack[..|stack| - drained] && cache.Contents() == old(cache.Contents())
      {
        var ok := PopInto(batch, drained);
        if !ok { break; }
        PrefixLast(stack, |stack| - drained, slab.Stack(sc), batch[drained]);
        drained := drained + 1;
      }
    }

    /** Moves up to a batch of pointers off the slab, to the transfer cache as far as it has room and to
        the list. */
    method DrainSlab()
      requires Valid()
      modifies cache`usedSlots, cache.slots, slab.currents
      modifies list, list.objs, list.ram, list.pageHeap, list.pageHeap.freeLists, list.pageHeap.FreeSpans()
      ensures Valid() && Spares(user)
      ensures Drained(table[sc].batchSize, old(cache.Contents()), old(slab.Stack(sc)), cache.Contents(), slab.Stack(sc))
      ensures forall s | s in list.objs :: s in old(list.objs)
      ensures forall s | s in list.pageHeap.FreeSpans() ::
                s in old(list.pageHeap.FreeSpans()) || s in old(list.objs) || fresh(s)
    {
      hide Balanced, CentralFreeList.Valid, WellOrdered, Managed, Slabs.Valid, Holds, Capacity, Divisible;
      hide CentralFreeList.Inv, Spared, SizesStay, Drained, PutOn, Slabs.Stack;
      SparedSame(user, list.size, list.pageHeap.h, list.ram.words);
      var batch := new nat[MAX_BATCH_SIZE];
      ghost var stack := slab.Stack(sc);
      var drained := PopBatch(batch);
      ghost var b, cached := batch[..], cache.Contents();
      CacheFits();
      NothingPut(b[..drained], cached);
      if drained > 0 {
        ReleaseBatch(batch, drained);
      } else {
        assert batch[..drained] == [];
      }
      DrainedBy(b, drained, table[sc].batchSize, cached, stack, cache.Contents(), slab.Stack(sc));
    }

    lemma DrainedBy(b: seq<nat>, drained: nat, batchSize: nat, cached: seq<nat>, stack: seq<nat>, cached': seq<nat>,
                    stack': seq<nat>)
      requires drained <= |b| && drained <= |stack| && PutOn(b[..drained], cached, cached')
      requires forall j | 0 <= j < drained :: b[j] == stack[|stack| - 1 - j]
      requires stack' == stack[..|stack| - drained] && drained <= batchSize && (drained == batchSize || stack' == [])
      ensures Drained(batchSize, cached, stack, cached', stack')
    {
      assert b[..drained] == Backwards(stack, |stack| - drained, |stack|);
    }

    lemma PrefixLast(s: seq<nat>, n: nat, rest: seq<nat>, x: nat)
      requires n <= |s| && s[..n] == rest + [x]
      ensures n > 0 && rest == s[..n - 1] && x == s[n - 1]
    {
      assert |s[..n]| == |rest| + 1;
      assert s[..n][n - 1] == x && s[..n][..n - 1] == rest;
    }

    /** slab_push of a caller's pointer. */
    method TryPush(mem: nat) returns (ok: bool)
      requires Valid() && mem in user
      modifies this`user, slab.currents, slab.pointers
      ensures Valid() && user == (if ok then old(user) - multiset{mem} else old(user))
      ensures ok == (|old(slab.Stack(sc))| < Capacity(table, sc)) && cache.Contents() == old(cache.Contents())
      ensures slab.Stack(sc) == if ok then old(slab.Stack(sc)) + [mem] else old(slab.Stack(sc))
    {
      hide Balanced, CentralFreeList.Valid, WellOrdered, Managed, Slabs.Valid, Sound, Holds, Lent;
      InTable();
      Hand(mem);
      assert [] + [mem] == [mem];
      ok := PushLoose([], mem);
      if !ok { Deliver([], mem); }
    }

    /** The class read off the span that holds the pointer; none when no span does. */
    method ClassOf(mem: nat) returns (idx: Option<nat>)
      requires Valid()
      ensures idx.None? <==> !Managed(list.pageHeap.h, mem / PAGE_SIZE)
      ensures mem in user ==> idx == Some(sc)
    {
      hide Balanced, Slabs.Valid, Holds, Lent, ListOk, Disjoint;
      if mem in user { Traced(mem); }
      var span := list.pageHeap.SpanFor(mem);
      if span == null { return None; }
      list.pageHeap.LiveFields(span.start);
      var i := SizeClassToIdx(table, span.size);
      return Some(i);
    }

    /** After a failed push: drains the slab and tries again, else gives the pointer to the list. */
    method DrainAndRetry(mem: nat) returns (ghost kept: seq<nat>)
      requires Valid() && mem in user
      modifies this`user, cache`usedSlots, cache.slots, slab.currents, slab.pointers
      modifies list, list.objs, list.ram, list.pageHeap, list.pageHeap.freeLists, list.pageHeap.FreeSpans()
      ensures Valid() && user == old(user) - multiset{mem} && Spares(user)
      ensures Drained(table[sc].batchSize, old(cache.Contents()), old(slab.Stack(sc)), cache.Contents(), kept)
      ensures slab.Stack(sc) == if |kept| < Capacity(table, sc) then kept + [mem] else kept
    {
      hide Balanced, CentralFreeList.Valid, WellOrdered, Managed, Slabs.Valid, Holds, Lent, Capacity, Divisible;
      hide Spared, SizesStay, CentralFreeList.Inv;
      InTable();
      ghost var held := user - multiset{mem};
      DrainSlab();
      kept := slab.Stack(sc);
      ghost var h, m := list.pageHeap.h, list.ram.words;
      SparedSame(held, list.size, h, m);
      var ok := TryPush(mem);
      if !ok {
        Hand(mem);
        assert forall k | 0 <= k < |list.objs| :: list.objs[k] in list.objs;
        GiveList([mem]);
      }
      FewerSpared(held, old(user), list.size, old(list.pageHeap.h), old(list.ram.words), m);
      SparedJoin(held, held, list.size, old(list.pageHeap.h), h, list.pageHeap.h, old(list.ram.words), m,
                 list.ram.words);
    }

    /** A full slab has room again once a batch is drained. */
    lemma RoomAgain(batchSize: nat, capacity: nat, cached: seq<nat>, stack: seq<nat>, cached': seq<nat>, kept: seq<nat>)
      requires Drained(batchSize, cached, stack, cached', kept) && 0 < batchSize && 0 < capacity == |stack|
      ensures |kept| < capacity
      ensures forall mem: nat :: PutBack(mem, batchSize, capacity, cached, stack, cached', kept + [mem])
    {
      hide Drained;
      DrainShortens(batchSize, cached, stack, cached', kept);
      assert forall mem: nat :: (kept + [mem])[..|kept|] == kept;
    }

    lemma DrainShortens(batchSize: nat, cached: seq<nat>, stack: seq<nat>, cached': seq<nat>, kept: seq<nat>)
      requires Drained(batchSize, cached, stack, cached', kept) && 0 < batchSize && stack != []
      ensures |kept| < |stack|
    {
    }

    /** deallocate: to the slab, after draining it when it is full. */
    method Deallocate(mem: nat)
      requires Valid() && (Managed(list.pageHeap.h, mem / PAGE_SIZE) ==> mem in user)
      modifies this`user, cache`usedSlots, cache.slots, slab.currents, slab.pointers
      modifies list, list.objs, list.ram, list.pageHeap, list.pageHeap.freeLists, list.pageHeap.FreeSpans()
      ensures Valid() && Spares(user)
      ensures !Managed(old(list.pageHeap.h), mem / PAGE_SIZE) ==>
                && user == old(user) && slab.Stack(sc) == old(slab.Stack(sc))
                && cache.Contents() == old(cache.Contents()) && list.st == old(list.st)
      ensures Managed(old(list.pageHeap.h), mem / PAGE_SIZE) ==> user == old(user) - multiset{mem}
      ensures Managed(old(list.pageHeap.h), mem / PAGE_SIZE) ==>
                && PutBack(mem, table[sc].batchSize, Capacity(table, sc), old(cache.Contents()), old(slab.Stack(sc)),
                           cache.Contents(), slab.Stack(sc))
                && (|old(slab.Stack(sc))| < Capacity(table, sc) ==> ListSame())
    {
      hide Balanced, CentralFreeList.Valid, WellOrdered, Managed, Slabs.Valid, Holds, Lent;
      hide Capacity, Divisible, Drained, Spared, SizesStay, CentralFreeList.Inv;
      InTable();
      EmptyRoom();
      StackFits();
      ghost var stack, cached := slab.Stack(sc), cache.Contents();
      SparedSame(user - multiset{mem}, list.size, list.pageHeap.h, list.ram.words);
      SparedSame(user, list.size, list.pageHeap.h, list.ram.words);
      var idx := ClassOf(mem);
      if idx.None? { return; }
      assert idx == Some(sc);
      var ok := TryPush(mem);
      if !ok {
        ghost var kept := DrainAndRetry(mem);
        RoomAgain(table[sc].batchSize, Capacity(table, sc), cached, stack, cache.Contents(), kept);
      }
    }
  }
}
