/** How a per-CPU slab divides its pointer array among the size classes (config.hpp). */
module SlabLayout {
  import opened Arithmetic
  import opened Widths
  import opened SizeClasses

  /** Every class but the reserved one has objects and batches. */
  ghost predicate Divisible(table: seq<SizeClass>) {
    && 1 <= |table| <= 0x1_0000
    && forall i | 1 <= i < |table| :: table[i].size > 0 && table[i].batchSize > 0
  }

  /** At least one batch, and whole batches only. */
  function WholeBatches(n: nat, batch: nat): nat
    requires batch > 0
  {
    var cap := (n / batch) * batch;
    if cap < batch then batch else cap
  }

  function RawCapacity(c: SizeClass): nat
    requires c.size > 0 && c.batchSize > 0
  {
    WholeBatches(c.byteBudget / c.size, c.batchSize)
  }

  ghost function Raw(table: seq<SizeClass>, i: nat): nat
    requires Divisible(table) && i < |table|
  {
    if i == 0 then 0 else RawCapacity(table[i])
  }

  ghost function RawTotal(table: seq<SizeClass>, n: nat): nat
    requires Divisible(table) && n <= |table|
  {
    if n == 0 then 0 else RawTotal(table, n - 1) + Raw(table, n - 1)
  }

  /** The pointers class i may hold on one CPU. */
  ghost function Capacity(table: seq<SizeClass>, i: nat): nat
    requires Divisible(table) && i < |table|
  {
    var total := RawTotal(table, |table|);
    if i == 0 || total <= MAX_SLAB_POINTERS then Raw(table, i)
    else WholeBatches(Raw(table, i) * MAX_SLAB_POINTERS / total, table[i].batchSize)
  }

  /** Where the slice of class i starts. */
  ghost function Offset(table: seq<SizeClass>, i: nat): nat
    requires Divisible(table) && i <= |table|
  {
    if i == 0 then 0 else Offset(table, i - 1) + Capacity(table, i - 1)
  }

  // ---- capacities ----

  /** The most whole batches n slots hold, or one batch when they hold none. */
  lemma WholeBatchesLaws(n: nat, batch: nat)
    requires batch > 0
    ensures WholeBatches(n, batch) % batch == 0
    ensures batch <= WholeBatches(n, batch) && WholeBatches(n, batch) <= if n < batch then batch else n
    ensures n < WholeBatches(n, batch) + batch
  {
    DivTimes(n, batch);
    ModExact(n / batch, batch);
  }

  /** Unscaled capacities are whole batches and fit 16 bits. */
  lemma RawLaws(table: seq<SizeClass>, i: nat)
    requires Divisible(table) && 1 <= i < |table|
    ensures 0 < table[i].batchSize <= Raw(table, i) <= UINT16_MAX
    ensures Raw(table, i) % table[i].batchSize == 0
  {
    var c := table[i];
    MulMonotone(1, c.size, c.byteBudget);
    DivAtMost(c.byteBudget, c.size, c.byteBudget);
    WholeBatchesLaws(c.byteBudget / c.size, c.batchSize);
  }

  /** Whole batches of a quotient: no more than the dividend allows, and one batch more would be too much. */
  lemma BatchesFill(n: nat, d: nat, batch: nat)
    requires d > 0 && batch > 0
    ensures WholeBatches(n / d, batch) == batch || WholeBatches(n / d, batch) * d <= n
    ensures n < (WholeBatches(n / d, batch) + batch) * d
  {
    hide WholeBatches;
    var cap := WholeBatches(n / d, batch);
    WholeBatchesLaws(n / d, batch);
    DivTimes(n, d);
    MulMonotone(cap, n / d, d);
    MulMonotone(n / d + 1, cap + batch, d);
    MulDistributes(n / d, 1, d);
  }

  /** The unscaled capacity holds as many whole batches as the class's byte budget pays for, and one at the
      least. */
  lemma RawFillsBudget(table: seq<SizeClass>, i: nat)
    requires Divisible(table) && 1 <= i < |table|
    ensures Raw(table, i) == table[i].batchSize || Raw(table, i) * table[i].size <= table[i].byteBudget
    ensures table[i].byteBudget < (Raw(table, i) + table[i].batchSize) * table[i].size
  {
    hide WholeBatches;
    BatchesFill(table[i].byteBudget, table[i].size, table[i].batchSize);
  }

  /** The sum of the unscaled capacities fits 32 bits, and so does each product with the slab's size. */
  lemma {:induction false} RawTotalFits(table: seq<SizeClass>, n: nat)
    requires Divisible(table) && n <= |table|
    ensures RawTotal(table, n) <= n * UINT16_MAX <= UINT32_MAX
    ensures forall i | 0 <= i < n :: Raw(table, i) <= RawTotal(table, n)
    ensures forall i | 0 <= i < n :: Raw(table, i) * MAX_SLAB_POINTERS <= UINT32_MAX
  {
    if n > 0 {
      RawTotalFits(table, n - 1);
      if n > 1 { RawLaws(table, n - 1); }
    }
  }

  /** Each class's capacity is a positive multiple of its batch and fits 16 bits. */
  lemma CapacityLaws(table: seq<SizeClass>, i: nat)
    requires Divisible(table) && 1 <= i < |table|
    ensures 0 < table[i].batchSize <= Capacity(table, i) <= Raw(table, i) <= UINT16_MAX
    ensures Capacity(table, i) % table[i].batchSize == 0
  {
    RawLaws(table, i);
    var total := RawTotal(table, |table|);
    if total > MAX_SLAB_POINTERS {
      var raw := Raw(table, i);
      MulMonotone(MAX_SLAB_POINTERS, total, raw);
      DivAtMost(raw * MAX_SLAB_POINTERS, total, raw);
      WholeBatchesLaws(raw * MAX_SLAB_POINTERS / total, table[i].batchSize);
    }
  }

  /** Unscaled, a capacity uses up its class's byte budget: one batch more would exceed it. Scaled, it uses up
      the class's share of the MAX_SLAB_POINTERS pointers: one batch more would exceed that. */
  lemma CapacityFills(table: seq<SizeClass>, i: nat)
    requires Divisible(table) && 1 <= i < |table|
    ensures var cap, batch, total := Capacity(table, i), table[i].batchSize, RawTotal(table, |table|);
            if total <= MAX_SLAB_POINTERS then
              && (cap == batch || cap * table[i].size <= table[i].byteBudget)
              && table[i].byteBudget < (cap + batch) * table[i].size
            else
              && (cap == batch || cap * total <= Raw(table, i) * MAX_SLAB_POINTERS)
              && Raw(table, i) * MAX_SLAB_POINTERS < (cap + batch) * total
  {
    hide WholeBatches, RawTotal;
    RawFillsBudget(table, i);
    var total := RawTotal(table, |table|);
    if total > MAX_SLAB_POINTERS {
      BatchesFill(Raw(table, i) * MAX_SLAB_POINTERS, total, table[i].batchSize);
    }
  }

  // ---- the total ----

  ghost function BatchTotal(table: seq<SizeClass>, n: nat): nat
    requires Divisible(table) && n <= |table|
  {
    if n <= 1 then 0 else BatchTotal(table, n - 1) + table[n - 1].batchSize
  }

  lemma TotalsStep(table: seq<SizeClass>, n: nat)
    requires Divisible(table) && 2 <= n <= |table| && RawTotal(table, |table|) > MAX_SLAB_POINTERS
    ensures Offset(table, n) == Offset(table, n - 1)
                                + WholeBatches(Raw(table, n - 1) * MAX_SLAB_POINTERS / RawTotal(table, |table|),
                                               table[n - 1].batchSize)
    ensures BatchTotal(table, n) == BatchTotal(table, n - 1) + table[n - 1].batchSize
    ensures RawTotal(table, n) == RawTotal(table, n - 1) + Raw(table, n - 1)
  {
    hide WholeBatches, RawCapacity;
  }

  lemma TotalsStart(table: seq<SizeClass>, n: nat)
    requires Divisible(table) && n <= 1
    ensures Offset(table, n) == BatchTotal(table, n) == RawTotal(table, n) == 0
  {
    hide WholeBatches, RawCapacity;
    assert Offset(table, 0) == RawTotal(table, 0) == 0;
  }

  /** Scaling leaves each class at most its share plus one batch. */
  lemma {:induction false} ScaledTotal(table: seq<SizeClass>, n: nat)
    requires Divisible(table) && n <= |table| && RawTotal(table, |table|) > MAX_SLAB_POINTERS
    ensures (Offset(table, n) - BatchTotal(table, n)) * RawTotal(table, |table|)
            <= RawTotal(table, n) * MAX_SLAB_POINTERS
  {
    var total := RawTotal(table, |table|);
    hide WholeBatches, RawCapacity, Offset, RawTotal, BatchTotal, Capacity, Raw;
    if n <= 1 {
      TotalsStart(table, n);
    } else {
      ScaledTotal(table, n - 1);
      TotalsStep(table, n);
      ScaledStep(Offset(table, n - 1), BatchTotal(table, n - 1), RawTotal(table, n - 1), Raw(table, n - 1),
                 table[n - 1].batchSize,
                 total, Offset(table, n), BatchTotal(table, n), RawTotal(table, n));
    }
  }

  lemma ScaledStep(offset: nat, batches: nat, raws: nat, raw: nat, batch: nat, total: nat,
                   offset': nat, batches': nat, raws': nat)
    requires batch > 0 && total > 0 && (offset - batches) * total <= raws * MAX_SLAB_POINTERS
    requires offset' == offset + WholeBatches(raw * MAX_SLAB_POINTERS / total, batch)
    requires batches' == batches + batch && raws' == raws + raw
    ensures (offset' - batches') * total <= raws' * MAX_SLAB_POINTERS
  {
    hide WholeBatches;
    var share := raw * MAX_SLAB_POINTERS / total;
    WholeBatchesLaws(share, batch);
    DivTimes(raw * MAX_SLAB_POINTERS, total);
    MulMonotone(offset' - batches', offset - batches + share, total);
    MulDistributes(offset - batches, share, total);
  }

  lemma MulDistributes(x: int, y: int, n: nat)
    ensures (x + y) * n == x * n + y * n
  {
  }

  /** The whole pointer array is at most MAX_SLAB_POINTERS and one batch of each class long. */
  lemma TotalBounded(table: seq<SizeClass>)
    requires Divisible(table)
    ensures Offset(table, |table|) <= MAX_SLAB_POINTERS + BatchTotal(table, |table|)
  {
    var total := RawTotal(table, |table|);
    if total > MAX_SLAB_POINTERS {
      ScaledTotal(table, |table|);
      var x := Offset(table, |table|) - BatchTotal(table, |table|);
      MulMonotone(MAX_SLAB_POINTERS + 1, x, total);
      assert (MAX_SLAB_POINTERS + 1) * total == MAX_SLAB_POINTERS * total + total;
    } else {
      UnscaledOffset(table, |table|);
    }
  }

  lemma {:induction false} UnscaledOffset(table: seq<SizeClass>, n: nat)
    requires Divisible(table) && n <= |table| && RawTotal(table, |table|) <= MAX_SLAB_POINTERS
    ensures Offset(table, n) == RawTotal(table, n)
  {
    if n > 0 {
      UnscaledOffset(table, n - 1);
    }
  }

  lemma {:induction false} OffsetFits(table: seq<SizeClass>, n: nat)
    requires Divisible(table) && n <= |table|
    ensures Offset(table, n) <= n * UINT16_MAX <= UINT32_MAX
  {
    if n > 0 {
      OffsetFits(table, n - 1);
      if n > 1 { CapacityLaws(table, n - 1); }
    }
  }

  // ---- the shipped table ----

  lemma RawStep(table: seq<SizeClass>, i: nat)
    requires Divisible(table) && 1 <= i < |table|
    ensures table[i].batchSize > 0 && table[i].size > 0
    ensures Raw(table, i) == WholeBatches(table[i].byteBudget / table[i].size, table[i].batchSize)
    ensures RawTotal(table, i + 1) == RawTotal(table, i) + Raw(table, i) <= UINT32_MAX
    ensures RawTotal(table, 1) == 0
  {
    RawTotalFits(table, i + 1);
    assert RawTotal(table, 1) == RawTotal(table, 0) + Raw(table, 0);
  }

  lemma ShippedDivisible()
    ensures Divisible(SIZE_CLASSES) && |SIZE_CLASSES| == 48
  {
  }

  /** k batches, when k are within n and k + 1 are not. */
  lemma WholeBatchesExact(n: nat, d: nat, batch: nat, k: nat)
    requires d > 0 && batch > 0 && k > 0 && k * batch * d <= n < (k + 1) * batch * d
    ensures WholeBatches(n / d, batch) == k * batch
  {
    DivTimes(n, d);
    DivAtLeast(n, d, k * batch);
    MulMonotone((k + 1) * batch, n / d, d);
    DivAtLeast(n / d, batch, k);
    DivTimes(n / d, batch);
    MulMonotone(k + 1, n / d / batch, batch);
    MulMonotone(1, k, batch);
  }

  lemma ShippedClass(c: nat, size: nat, budget: nat, k: nat)
    requires 1 <= c < |SIZE_CLASSES| && k > 0 && size > 0 && SIZE_CLASSES[c].batchSize == 32
    requires SIZE_CLASSES[c].size == size && SIZE_CLASSES[c].byteBudget == budget
    requires 32 * k * size <= budget < 32 * (k + 1) * size
    ensures Divisible(SIZE_CLASSES) && |SIZE_CLASSES| == 48
    ensures Raw(SIZE_CLASSES, c) == 32 * k
    ensures RawTotal(SIZE_CLASSES, c + 1) == RawTotal(SIZE_CLASSES, c) + 32 * k
  {
    ShippedDivisible();
    hide RawTotal, Divisible, Raw, WholeBatches, SIZE_CLASSES;
    RawStep(SIZE_CLASSES, c);
    WholeBatchesExact(budget, size, 32, k);
  }

  lemma ShippedSizes()
    ensures |SIZE_CLASSES| == 48
    ensures forall c | 1 <= c <= 12 :: SIZE_CLASSES[c].batchSize == 32
    ensures forall c | 1 <= c <= 12 :: SIZE_CLASSES[c].byteBudget == if c <= 4 then 64000 else 32000
    ensures forall c | 1 <= c <= 12 ::
              SIZE_CLASSES[c].size == [0, 8, 16, 32, 64, 80, 96, 112, 128, 160, 176, 208, 256][c]
  {
  }

  /** The classes below 312 bytes hold most of the slab. */
  lemma ShippedSmall()
    ensures Divisible(SIZE_CLASSES) && |SIZE_CLASSES| == 48
    ensures RawTotal(SIZE_CLASSES, 13) == 16736
    ensures Raw(SIZE_CLASSES, 1) == 8000 && Raw(SIZE_CLASSES, 2) == 4000 && Raw(SIZE_CLASSES, 3) == 1984
    ensures Raw(SIZE_CLASSES, 4) == 992 && Raw(SIZE_CLASSES, 5) == 384 && Raw(SIZE_CLASSES, 6) == 320
    ensures Raw(SIZE_CLASSES, 7) == 256 && Raw(SIZE_CLASSES, 8) == 224 && Raw(SIZE_CLASSES, 9) == 192
    ensures Raw(SIZE_CLASSES, 10) == 160 && Raw(SIZE_CLASSES, 11) == 128 && Raw(SIZE_CLASSES, 12) == 96
  {
    ShippedDivisible();
    ShippedSizes();
    hide RawTotal, Divisible, Raw, SIZE_CLASSES;
    RawStep(SIZE_CLASSES, 1);
    ShippedClass(1, 8, 64000, 250);
    ShippedClass(2, 16, 64000, 125);
    ShippedClass(3, 32, 64000, 62);
    ShippedClass(4, 64, 64000, 31);
    ShippedClass(5, 80, 32000, 12);
    ShippedClass(6, 96, 32000, 10);
    ShippedClass(7, 112, 32000, 8);
    ShippedClass(8, 128, 32000, 7);
    ShippedClass(9, 160, 32000, 6);
    ShippedClass(10, 176, 32000, 5);
    ShippedClass(11, 208, 32000, 4);
    ShippedClass(12, 256, 32000, 3);
  }

  lemma ShippedBudgets()
    ensures forall c | 13 <= c < 48 ::
              SIZE_CLASSES[c].byteBudget < 2 * SIZE_CLASSES[c].batchSize * SIZE_CLASSES[c].size
  {
  }

  /** From 312 bytes up a class holds a single batch. */
  lemma ShippedRest(c: nat)
    requires 13 <= c < 48
    ensures Divisible(SIZE_CLASSES) && |SIZE_CLASSES| == 48
    ensures Raw(SIZE_CLASSES, c) == SIZE_CLASSES[c].batchSize
    ensures RawTotal(SIZE_CLASSES, c + 1) == RawTotal(SIZE_CLASSES, c) + SIZE_CLASSES[c].batchSize
  {
    ShippedDivisible();
    ShippedBudgets();
    hide RawTotal, Divisible, Raw, WholeBatches;
    var sc := SIZE_CLASSES[c];
    RawStep(SIZE_CLASSES, c);
    OneBatch(sc.byteBudget, sc.size, sc.batchSize);
  }

  lemma OneBatch(n: nat, d: nat, batch: nat)
    requires d > 0 && batch > 0 && n < 2 * batch * d
    ensures WholeBatches(n / d, batch) == batch
  {
    DivTimes(n, d);
    MulMonotone(2 * batch, n / d, d);
    var q := n / d / batch;
    DivTimes(n / d, batch);
    MulMonotone(2, q, batch);
    MulMonotone(q, 1, batch);
  }

  lemma ShippedBatches()
    ensures |SIZE_CLASSES| == 48
    ensures forall c | 13 <= c < 25 :: SIZE_CLASSES[c].batchSize == 32
    ensures forall c | 35 <= c < 48 :: SIZE_CLASSES[c].batchSize == 2
    ensures SIZE_CLASSES[25].batchSize == 24 && SIZE_CLASSES[26].batchSize == 18 && SIZE_CLASSES[27].batchSize == 16
    ensures SIZE_CLASSES[28].batchSize == 13 && SIZE_CLASSES[29].batchSize == 10 && SIZE_CLASSES[30].batchSize == 8
    ensures SIZE_CLASSES[31].batchSize == 6 && SIZE_CLASSES[32].batchSize == 5 && SIZE_CLASSES[33].batchSize == 4
    ensures SIZE_CLASSES[34].batchSize == 3
  {
  }

  lemma ShippedTotal()
    ensures Divisible(SIZE_CLASSES) && |SIZE_CLASSES| == 48
    ensures RawTotal(SIZE_CLASSES, 48) == 17253
  {
    ShippedDivisible();
    hide RawTotal, Divisible, Raw, SIZE_CLASSES;
    ShippedSmall();
    ShippedBatches();
    for c := 13 to 25
      invariant RawTotal(SIZE_CLASSES, c) == 16736 + 32 * (c - 13)
    {
      ShippedRest(c);
    }
    for c := 25 to 35
      invariant RawTotal(SIZE_CLASSES, c)
                == 17120 + [0, 24, 42, 58, 71, 81, 89, 95, 100, 104, 107][c - 25]
    {
      ShippedRest(c);
    }
    for c := 35 to 48
      invariant RawTotal(SIZE_CLASSES, c) == 17227 + 2 * (c - 35)
    {
      ShippedRest(c);
    }
  }

  /** The slab of the shipped table: 17253 pointers a CPU, nothing scaled. */
  lemma ShippedSlab()
    ensures Divisible(SIZE_CLASSES) && |SIZE_CLASSES| == 48
    ensures Offset(SIZE_CLASSES, 48) == 17253
    ensures Capacity(SIZE_CLASSES, 1) == 8000 && Capacity(SIZE_CLASSES, 2) == 4000
    ensures Capacity(SIZE_CLASSES, 3) == 1984 && Capacity(SIZE_CLASSES, 4) == 992
    ensures Capacity(SIZE_CLASSES, 5) == 384 && Capacity(SIZE_CLASSES, 6) == 320
    ensures Capacity(SIZE_CLASSES, 7) == 256 && Capacity(SIZE_CLASSES, 8) == 224
    ensures Capacity(SIZE_CLASSES, 9) == 192 && Capacity(SIZE_CLASSES, 10) == 160
    ensures Capacity(SIZE_CLASSES, 11) == 128 && Capacity(SIZE_CLASSES, 12) == 96
    ensures forall c | 13 <= c < 48 :: Capacity(SIZE_CLASSES, c) == SIZE_CLASSES[c].batchSize
  {
    ShippedTotal();
    ShippedSmall();
    hide RawTotal, Divisible, Raw, SIZE_CLASSES, Capacity, Offset;
    UnscaledOffset(SIZE_CLASSES, 48);
    forall c | 1 <= c < 48
      ensures Capacity(SIZE_CLASSES, c) == Raw(SIZE_CLASSES, c)
      ensures c >= 13 ==> Raw(SIZE_CLASSES, c) == SIZE_CLASSES[c].batchSize
    {
      Unscaled(SIZE_CLASSES, c);
      if c >= 13 { ShippedRest(c); }
    }
  }

  // ---- slices ----

  /** Slices follow one another without overlap. */
  lemma {:induction false} SlicesApart(table: seq<SizeClass>, i: nat, j: nat)
    requires Divisible(table) && i < j <= |table|
    ensures Offset(table, i) + Capacity(table, i) <= Offset(table, j)
    decreases j
  {
    if i < j - 1 {
      SlicesApart(table, i, j - 1);
    }
  }

  lemma SlicesDisjoint(table: seq<SizeClass>, i: nat, j: nat)
    requires Divisible(table) && i < |table| && j < |table| && i != j
    ensures || Offset(table, j) + Capacity(table, j) <= Offset(table, i)
            || Offset(table, i) + Capacity(table, i) <= Offset(table, j)
  {
    if i < j {
      SlicesApart(table, i, j);
    } else {
      SlicesApart(table, j, i);
    }
  }

  lemma Unscaled(table: seq<SizeClass>, i: nat)
    requires Divisible(table) && i < |table| && RawTotal(table, |table|) <= MAX_SLAB_POINTERS
    ensures Capacity(table, i) == Raw(table, i)
  {
  }

  /** Rounds down to whole batches, to one at the least, in 32 bits. */
  method RoundToBatches(slots: uint32, batch: uint8) returns (cap: uint32)
    requires batch > 0
    ensures cap == WholeBatches(slots, batch)
  {
    WholeBatchesLaws(slots, batch);
    cap := (slots / batch) * batch;
    if cap < batch { cap := batch; }
  }

  /** The first loop of compute_slab_offsets: capacities from the byte budgets. */
  method RawCapacities(table: seq<SizeClass>) returns (capacities: array<uint32>, total: uint32)
    requires Divisible(table)
    ensures fresh(capacities) && capacities.Length == |table|
    ensures forall j | 0 <= j < |table| :: capacities[j] == Raw(table, j)
    ensures total == RawTotal(table, |table|)
  {
    hide Raw, RawTotal, WholeBatches, Divisible;
    var n := |table|;
    FirstRaw(table);
    capacities := new uint32[n](_ => 0);
    total := 0;
    for i := 1 to n
      invariant total == RawTotal(table, i)
      invariant forall j | 0 <= j < n :: capacities[j] == if j < i then Raw(table, j) else 0
    {
      RawStep(table, i);
      var slots: uint32 := table[i].byteBudget / table[i].size;
      var cap := RoundToBatches(slots, table[i].batchSize);
      capacities[i] := cap;
      total := total + cap;
    }
  }

  lemma FirstRaw(table: seq<SizeClass>)
    requires Divisible(table)
    ensures |table| >= 1 && RawTotal(table, 1) == 0 && Raw(table, 0) == 0
  {
    assert RawTotal(table, 1) == RawTotal(table, 0) + Raw(table, 0);
  }

  /** The share of the slab, formed in 32 bits. */
  method Share(slots: uint32, total: uint32) returns (share: uint32)
    requires total > 0 && slots * MAX_SLAB_POINTERS <= UINT32_MAX
    ensures share == slots * MAX_SLAB_POINTERS / total
  {
    var product: uint32 := slots * MAX_SLAB_POINTERS;
    QuotientFits(product, total);
    share := product / total;
  }

  lemma QuotientFits(n: nat, d: nat)
    requires d > 0
    ensures 0 <= n / d <= n
  {
    MulMonotone(1, d, n);
    DivAtMost(n, d, n);
  }

  /** The product formed in scaling fits 32 bits. */
  lemma ScaleStep(table: seq<SizeClass>, i: nat)
    requires Divisible(table) && 1 <= i < |table| && RawTotal(table, |table|) > MAX_SLAB_POINTERS
    ensures table[i].batchSize > 0 && Raw(table, i) * MAX_SLAB_POINTERS <= UINT32_MAX
    ensures Capacity(table, i)
            == WholeBatches(Raw(table, i) * MAX_SLAB_POINTERS / RawTotal(table, |table|), table[i].batchSize)
  {
    hide WholeBatches, Raw;
    RawTotalFits(table, |table|);
  }

  lemma FirstCapacity(table: seq<SizeClass>)
    requires Divisible(table)
    ensures Capacity(table, 0) == Raw(table, 0)
  {
  }

  /** The second loop: scales every capacity down to whole batches of its share. */
  method ScaleCapacities(table: seq<SizeClass>, capacities: array<uint32>, total: uint32)
    requires Divisible(table) && capacities.Length == |table|
    requires total == RawTotal(table, |table|) > MAX_SLAB_POINTERS
    requires forall j | 0 <= j < |table| :: capacities[j] == Raw(table, j)
    modifies capacities
    ensures forall j | 0 <= j < |table| :: capacities[j] == Capacity(table, j)
  {
    hide Raw, RawTotal, WholeBatches, Capacity;
    var n := |table|;
    FirstCapacity(table);
    for i := 1 to n
      invariant forall j | 0 <= j < n :: capacities[j] == if j < i then Capacity(table, j) else Raw(table, j)
    {
      ScaleStep(table, i);
      var share := Share(capacities[i], total);
      capacities[i] := RoundToBatches(share, table[i].batchSize);
    }
  }

  lemma OffsetStep(table: seq<SizeClass>, i: nat)
    requires Divisible(table) && i <= |table|
    ensures Offset(table, i) == if i == 0 then 0 else Offset(table, i - 1) + Capacity(table, i - 1)
  {
  }

  /** compute_slab_offsets: the prefix sums of the capacities, scaled when they exceed the slab. */
  method ComputeSlabOffsets(table: seq<SizeClass>) returns (offsets: array<uint32>)
    requires Divisible(table)
    ensures fresh(offsets) && offsets.Length == |table| + 1
    ensures forall i | 0 <= i <= |table| :: offsets[i] == Offset(table, i)
  {
    hide Capacity, WholeBatches, RawCapacity, Raw, RawTotal, Offset;
    OffsetStep(table, 0);
    var n := |table|;
    var capacities, total := RawCapacities(table);
    if total > MAX_SLAB_POINTERS {
      ScaleCapacities(table, capacities, total);
    } else {
      forall j | 0 <= j < n { Unscaled(table, j); }
    }
    offsets := new uint32[n + 1](_ => 0);
    for i := 1 to n + 1
      invariant forall j | 0 <= j < n :: capacities[j] == Capacity(table, j)
      invariant forall j | 0 <= j < i :: offsets[j] == Offset(table, j)
    {
      OffsetFits(table, i);
      OffsetStep(table, i);
      offsets[i] := offsets[i - 1] + capacities[i - 1];
    }
  }

  /** compute_slab_capacities: the lengths of the slices. */
  method ComputeSlabCapacities(table: seq<SizeClass>, offsets: array<uint32>) returns (capacities: array<uint32>)
    requires Divisible(table) && offsets.Length == |table| + 1
    requires forall i | 0 <= i <= |table| :: offsets[i] == Offset(table, i)
    ensures fresh(capacities) && capacities.Length == |table|
    ensures forall i | 0 <= i < |table| :: capacities[i] == Capacity(table, i)
  {
    capacities := new uint32[|table|](_ => 0);
    for i := 0 to |table|
      invariant forall j | 0 <= j < i :: capacities[j] == Capacity(table, j)
    {
      OffsetFits(table, i + 1);
      capacities[i] := offsets[i + 1] - offsets[i];
    }
  }
}
