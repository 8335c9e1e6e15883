/** The size class table and its two binary searches (size_classes.hpp). */
module SizeClasses {
  import opened Widths

  /** The longest object, the pages per span, the pointers per batch, the bytes cached per CPU. */
  datatype SizeClass = Class(size: uint32, pages: uint8, batchSize: uint8, byteBudget: uint16)

  // Class 0 stands for large requests, which no class serves; the rest ascend in size.
  const RESERVED: seq<SizeClass> := [
    Class(0, 0, 0, 0)
  ]
  const TINY: seq<SizeClass> := [
    Class(8, 1, 32, 64000), Class(16, 1, 32, 64000), Class(32, 1, 32, 64000), Class(64, 1, 32, 64000)
  ]
  const SMALL: seq<SizeClass> := [
    Class(80, 1, 32, 32000), Class(96, 1, 32, 32000), Class(112, 1, 32, 32000), Class(128, 1, 32, 32000),
    Class(160, 1, 32, 32000), Class(176, 1, 32, 32000), Class(208, 1, 32, 32000), Class(256, 1, 32, 32000)
  ]
  const MEDIUM: seq<SizeClass> := [
    Class(312, 1, 32, 16000), Class(384, 1, 32, 16000), Class(448, 1, 32, 16000), Class(512, 1, 32, 16000),
    Class(576, 1, 32, 16000), Class(704, 1, 32, 16000), Class(896, 1, 32, 16000), Class(1024, 1, 32, 16000)
  ]
  const LARGE: seq<SizeClass> := [
    Class(1152, 2, 32, 8000), Class(1408, 2, 32, 8000), Class(1792, 2, 32, 8000), Class(2048, 2, 32, 8000),
    Class(2688, 2, 24, 8000), Class(3456, 3, 18, 8000), Class(4096, 1, 16, 8000)
  ]
  const XL: seq<SizeClass> := [
    Class(4736, 3, 13, 4000), Class(6144, 3, 10, 4000), Class(8192, 1, 8, 4000), Class(9472, 5, 6, 4000),
    Class(12288, 3, 5, 4000), Class(16384, 2, 4, 4000)
  ]
  const XXL: seq<SizeClass> := [
    Class(20480, 5, 3, 2000), Class(28672, 7, 2, 2000), Class(32768, 4, 2, 2000), Class(40960, 5, 2, 2000),
    Class(49152, 6, 2, 2000), Class(65536, 8, 2, 2000), Class(73728, 9, 2, 2000)
  ]
  const XXXL: seq<SizeClass> := [
    Class(81920, 10, 2, 2000), Class(98304, 12, 2, 2000), Class(114688, 14, 2, 2000), Class(131072, 16, 2, 2000),
    Class(155648, 19, 2, 2000), Class(204800, 25, 2, 2000), Class(262144, 32, 2, 2000)
  ]

  const SIZE_CLASSES: seq<SizeClass> := RESERVED + TINY + SMALL + MEDIUM + LARGE + XL + XXL + XXXL

  /** Class 0 is empty and sizes ascend strictly. */
  ghost predicate WellOrdered(table: seq<SizeClass>) {
    && |table| >= 2 && table[0].size == 0
    && forall i, j | 0 <= i < j < |table| :: table[i].size < table[j].size
  }

  /** The class of least size that holds n bytes; 0 when none does. */
  ghost predicate LeastClass(table: seq<SizeClass>, n: nat, idx: nat)
    requires |table| >= 2
  {
    if n <= table[|table| - 1].size then
      && 1 <= idx < |table| && n <= table[idx].size
      && forall j | 1 <= j < idx :: table[j].size < n
    else
      idx == 0
  }

  method RoundSizeClass(table: seq<SizeClass>, n: nat) returns (sc: SizeClass, idx: nat)
    requires WellOrdered(table)
    ensures LeastClass(table, n, idx) && idx < |table| && sc == table[idx]
  {
    if n == 0 { return table[1], 1; }
    var lo, hi := 1, |table| - 1;
    while lo < hi
      invariant 1 <= lo <= hi < |table|
      invariant forall j | 1 <= j < lo :: table[j].size < n
      invariant hi < |table| - 1 ==> n <= table[hi].size
    {
      var mid := lo + (hi - lo) / 2;
      if table[mid].size < n {
        lo := mid + 1;
      } else {
        hi := mid;
      }
    }
    if table[lo].size >= n {
      return table[lo], lo;
    }
    return table[0], 0;
  }

  /** The first class at least as long, the last one when none is. */
  ghost predicate SizeIndex(table: seq<SizeClass>, size: nat, idx: nat)
  {
    && idx < |table|
    && (forall j | 0 <= j < idx :: table[j].size < size)
    && (idx < |table| - 1 ==> size <= table[idx].size)
  }

  /** The size of a class leads back to that class. */
  lemma SizeIndexExact(table: seq<SizeClass>, i: nat, idx: nat)
    requires WellOrdered(table) && i < |table| && SizeIndex(table, table[i].size, idx)
    ensures idx == i
  {
  }

  /** Leads from the object size of a span back to its class. */
  method SizeClassToIdx(table: seq<SizeClass>, size: nat) returns (idx: nat)
    requires WellOrdered(table)
    ensures SizeIndex(table, size, idx)
    ensures forall i | 0 <= i < |table| && table[i].size == size :: idx == i
  {
    var lo, hi := 0, |table| - 1;
    while lo < hi
      invariant 0 <= lo <= hi < |table|
      invariant forall j | 0 <= j < lo :: table[j].size < size
      invariant hi < |table| - 1 ==> size <= table[hi].size
    {
      var mid := lo + (hi - lo) / 2;
      if table[mid].size < size {
        lo := mid + 1;
      } else {
        hi := mid;
      }
    }
    return lo;
  }

  // ---- the table itself ----

  lemma TableWellOrdered()
    ensures WellOrdered(SIZE_CLASSES) && |SIZE_CLASSES| == 48
  {
    assert forall i | 0 <= i < 47 :: SIZE_CLASSES[i].size < SIZE_CLASSES[i + 1].size;
    AscendingFromNeighbours(SIZE_CLASSES);
  }

  lemma {:induction false} AscendingBetween(table: seq<SizeClass>, i: nat, j: nat)
    requires forall k | 0 <= k < |table| - 1 :: table[k].size < table[k + 1].size
    requires i < j < |table|
    ensures table[i].size < table[j].size
    decreases j
  {
    if i < j - 1 {
      AscendingBetween(table, i, j - 1);
    }
  }

  lemma AscendingFromNeighbours(table: seq<SizeClass>)
    requires forall k | 0 <= k < |table| - 1 :: table[k].size < table[k + 1].size
    ensures forall i, j | 0 <= i < j < |table| :: table[i].size < table[j].size
  {
    forall i, j | 0 <= i < j < |table|
      ensures table[i].size < table[j].size
    {
      AscendingBetween(table, i, j);
    }
  }
}
