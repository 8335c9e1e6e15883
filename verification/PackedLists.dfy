/** The free list of one span, kept inside its free objects (central_free_list.hpp): an unrolled
    list of 16-bit object indices, and the plain stack of indices it stands for. */
module PackedLists {
  import opened Sequences
  import opened Arithmetic
  import opened Widths

  /** Memory as aligned 16-bit words by byte address; memory never written reads 0. */
  type Memory = map<nat, uint16>

  function Word(m: Memory, a: nat): uint16 {
    if a in m then m[a] else 0
  }

  const NODE_SIZE: nat := 4   // next_idx and count

  function PackCapacity(size: uint32): uint16 {
    if size < NODE_SIZE then 0 else ((size - NODE_SIZE) / 2) % 0x1_0000
  }

  function IndexToPtr(idx: nat, base: nat, size: nat): nat {
    base + idx * size
  }

  function PtrToIndex(ptr: nat, base: nat, size: nat): uint16
    requires base <= ptr && size > 0
  {
    ((ptr - base) / size) % 0x1_0000
  }

  // A node's words: next_idx, count, then the slots.
  function NextAt(p: nat): nat { p }
  function CountAt(p: nat): nat { p + 2 }
  function SlotAt(p: nat, k: nat): nat { p + NODE_SIZE + 2 * k }

  /** The byte address lies in object `idx`. */
  ghost predicate InObject(a: nat, base: nat, size: nat, idx: nat) {
    IndexToPtr(idx, base, size) <= a < IndexToPtr(idx, base, size) + size
  }

  /** The memories agree on object `idx`. */
  ghost predicate SameObject(m: Memory, m': Memory, base: nat, size: nat, idx: nat) {
    forall a: nat | InObject(a, base, size, idx) :: Word(m, a) == Word(m', a)
  }

  /** The slots of the node at p, from last to first, lead the stack `s`. */
  ghost predicate SlotsHold(m: Memory, p: nat, count: nat, s: seq<nat>) {
    count <= |s| && forall k | 0 <= k < count :: s[k] == Word(m, SlotAt(p, count - 1 - k))
  }

  /** The packed list at `head` holds the stack `s`: the head node's slots from last to first,
      then the node itself, then the rest. */
  ghost predicate IsList(m: Memory, base: nat, size: uint32, head: uint16, s: seq<nat>)
    decreases |s|
  {
    if head == INVALID_INDEX then s == []
    else
      var p := IndexToPtr(head, base, size);
      var count := Word(m, CountAt(p));
      && count <= PackCapacity(size) && count < |s| && s[count] == head
      && SlotsHold(m, p, count, s)
      && IsList(m, base, size, Word(m, NextAt(p)), s[count + 1..])
  }

  // ---- layout ----

  /** A node with all its slots fits its object, whatever the truncation to 16 bits; where nothing is truncated
      one slot more would not. */
  lemma CapacityFits(size: uint32)
    requires size >= NODE_SIZE
    ensures NODE_SIZE + 2 * PackCapacity(size) <= size
    ensures size < NODE_SIZE + 2 * 0x1_0000 ==> size < NODE_SIZE + 2 * (PackCapacity(size) + 1)
  {
  }

  lemma ObjectsApart(i: nat, j: nat, base: nat, size: nat)
    requires i != j
    ensures forall a: nat | InObject(a, base, size, i) :: !InObject(a, base, size, j)
  {
    if i < j {
      assert (i + 1) * size <= j * size;
    } else {
      assert (j + 1) * size <= i * size;
    }
  }

  /** Address and index translate back and forth. */
  lemma IndexRoundTrip(idx: uint16, base: nat, size: nat)
    requires size > 0
    ensures PtrToIndex(IndexToPtr(idx, base, size), base, size) == idx
  {
    DivExact(idx, size);
    assert (base + idx * size) - base == idx * size;
  }

  lemma NodeInObject(head: nat, base: nat, size: uint32, k: nat)
    requires size >= NODE_SIZE && k < PackCapacity(size)
    ensures var p := IndexToPtr(head, base, size);
            InObject(NextAt(p), base, size, head) && InObject(CountAt(p), base, size, head)
            && InObject(SlotAt(p, k), base, size, head)
  {
    hide IndexToPtr;
  }

  lemma HeaderInObject(head: nat, base: nat, size: uint32)
    requires size >= NODE_SIZE
    ensures var p := IndexToPtr(head, base, size);
            InObject(NextAt(p), base, size, head) && InObject(CountAt(p), base, size, head)
  {
    hide IndexToPtr;
  }

  // ---- separation ----

  /** The list only depends on the objects that are on it: whatever is written elsewhere,
      it holds the same stack. */
  lemma {:induction false} ListFrame(m: Memory, m': Memory, base: nat, size: uint32, head: uint16, s: seq<nat>)
    requires size >= NODE_SIZE && IsList(m, base, size, head, s)
    requires forall i | i in s :: SameObject(m, m', base, size, i)
    ensures IsList(m', base, size, head, s)
    decreases |s|
  {
    hide IndexToPtr;
    if head != INVALID_INDEX {
      var p := IndexToPtr(head, base, size);
      var count := Word(m, CountAt(p));
      HeaderInObject(head, base, size);
      assert s[count] in s && SameObject(m, m', base, size, head);
      forall j | 0 <= j < count
        ensures Word(m', SlotAt(p, j)) == Word(m, SlotAt(p, j))
      {
        NodeInObject(head, base, size, j);
      }
      assert SlotsHold(m', p, count, s);
      ListFrame(m, m', base, size, Word(m, NextAt(p)), s[count + 1..]);
    }
  }

  /** The memories agree but for the words at `a` and `b`. */
  ghost predicate SameBut(m: Memory, m': Memory, a: nat, b: nat) {
    forall x: nat | x != a && x != b :: Word(m', x) == Word(m, x)
  }

  /** Words written in one object leave the others alone. */
  lemma WriteOutside(m: Memory, m': Memory, a: nat, b: nat, base: nat, size: nat, i: nat)
    requires SameBut(m, m', a, b)
    requires InObject(a, base, size, i) && InObject(b, base, size, i)
    ensures forall j: nat | j != i :: SameObject(m, m', base, size, j)
  {
    hide IndexToPtr;
    forall j: nat | j != i
      ensures SameObject(m, m', base, size, j)
    {
      ObjectsApart(i, j, base, size);
    }
  }

  // ---- the stack operations ----

  lemma SlotsPush(m: Memory, p: nat, count: uint16, s: seq<nat>, idx: uint16)
    requires SlotsHold(m, p, count, s) && count < UINT16_MAX
    ensures SlotsHold(m[SlotAt(p, count) := idx][CountAt(p) := count + 1], p, count + 1, [idx] + s)
  {
    var m' := m[SlotAt(p, count) := idx][CountAt(p) := count + 1];
    var s' := [idx] + s;
    forall k | 0 <= k < count + 1
      ensures s'[k] == Word(m', SlotAt(p, count - k))
    {
      if k > 0 {
        assert s[k - 1] == Word(m, SlotAt(p, count - 1 - (k - 1)));
      }
    }
  }

  lemma SlotsPop(m: Memory, p: nat, count: uint16, s: seq<nat>)
    requires SlotsHold(m, p, count, s) && count > 0
    ensures SlotsHold(m[CountAt(p) := count - 1], p, count - 1, s[1..])
  {
    var m', s' := m[CountAt(p) := count - 1], s[1..];
    forall k | 0 <= k < count - 1
      ensures s'[k] == Word(m', SlotAt(p, count - 2 - k))
    {
      assert s[k + 1] == Word(m, SlotAt(p, count - 1 - (k + 1)));
    }
  }

  /** A list that begins with a node. */
  lemma ListOfNode(m: Memory, base: nat, size: uint32, head: uint16, s: seq<nat>)
    requires head != INVALID_INDEX
    ensures IsList(m, base, size, head, s) <==>
              var p, count := IndexToPtr(head, base, size), Word(m, CountAt(IndexToPtr(head, base, size)));
              && count <= PackCapacity(size) && count < |s| && s[count] == head
              && SlotsHold(m, p, count, s)
              && IsList(m, base, size, Word(m, NextAt(p)), s[count + 1..])
  {
    hide IndexToPtr, SlotsHold, PackCapacity;
  }

  lemma NodeLeft(s: seq<nat>, k: nat)
    requires Distinct(s) && k < |s|
    ensures s[k] !in s[k + 1..]
  {
  }

  /** Storing an index in a free slot of the head node pushes it. */
  lemma PushSlot(m: Memory, base: nat, size: uint32, head: uint16, s: seq<nat>, idx: uint16)
    requires size >= NODE_SIZE && IsList(m, base, size, head, s) && Distinct(s)
    requires head != INVALID_INDEX && Word(m, CountAt(IndexToPtr(head, base, size))) < PackCapacity(size)
    ensures var p := IndexToPtr(head, base, size);
            var count := Word(m, CountAt(p));
            var m' := m[SlotAt(p, count) := idx][CountAt(p) := count + 1];
            IsList(m', base, size, head, [idx] + s)
            && forall i: nat | i != head :: SameObject(m, m', base, size, i)
  {
    hide IndexToPtr, Distinct, SlotsHold, SameObject, IsList;
    ListOfNode(m, base, size, head, s);
    var p := IndexToPtr(head, base, size);
    var count := Word(m, CountAt(p));
    var m' := m[SlotAt(p, count) := idx][CountAt(p) := count + 1];
    NodeInObject(head, base, size, count);
    WriteOutside(m, m', SlotAt(p, count), CountAt(p), base, size, head);
    NodeLeft(s, count);
    ListFrame(m, m', base, size, Word(m, NextAt(p)), s[count + 1..]);
    assert ([idx] + s)[count + 2..] == s[count + 1..];
    SlotsPush(m, p, count, s, idx);
    ListOfNode(m', base, size, head, [idx] + s);
  }

  /** Turning a freed object into a new head node pushes it. */
  lemma PushNode(m: Memory, base: nat, size: uint32, head: uint16, s: seq<nat>, idx: uint16)
    requires size >= NODE_SIZE && IsList(m, base, size, head, s)
    requires idx !in s && idx != INVALID_INDEX
    ensures var p := IndexToPtr(idx, base, size);
            var m' := m[NextAt(p) := head][CountAt(p) := 0];
            IsList(m', base, size, idx, [idx] + s)
            && forall i: nat | i != idx :: SameObject(m, m', base, size, i)
  {
    hide IndexToPtr;
    var p := IndexToPtr(idx, base, size);
    var m' := m[NextAt(p) := head][CountAt(p) := 0];
    HeaderInObject(idx, base, size);
    WriteOutside(m, m', NextAt(p), CountAt(p), base, size, idx);
    ListFrame(m, m', base, size, head, s);
    assert ([idx] + s)[1..] == s;
  }

  /** Taking the last slot of the head node pops it. */
  lemma PopSlot(m: Memory, base: nat, size: uint32, head: uint16, s: seq<nat>)
    requires size >= NODE_SIZE && IsList(m, base, size, head, s) && Distinct(s)
    requires head != INVALID_INDEX && Word(m, CountAt(IndexToPtr(head, base, size))) > 0
    ensures var p := IndexToPtr(head, base, size);
            var count := Word(m, CountAt(p));
            var m' := m[CountAt(p) := count - 1];
            s != [] && s[0] == Word(m, SlotAt(p, count - 1)) && IsList(m', base, size, head, s[1..])
            && forall i: nat | i != head :: SameObject(m, m', base, size, i)
  {
    hide IndexToPtr, Distinct, SameObject, IsList;
    ListOfNode(m, base, size, head, s);
    var p := IndexToPtr(head, base, size);
    var count := Word(m, CountAt(p));
    var m' := m[CountAt(p) := count - 1];
    HeaderInObject(head, base, size);
    WriteOutside(m, m', CountAt(p), CountAt(p), base, size, head);
    NodeLeft(s, count);
    ListFrame(m, m', base, size, Word(m, NextAt(p)), s[count + 1..]);
    assert s[1..][count..] == s[count + 1..];
    SlotsPop(m, p, count, s);
    ListOfNode(m', base, size, head, s[1..]);
  }

  /** Unlinking an empty head node pops it. */
  lemma PopNode(m: Memory, base: nat, size: uint32, head: uint16, s: seq<nat>)
    requires IsList(m, base, size, head, s)
    requires head != INVALID_INDEX && Word(m, CountAt(IndexToPtr(head, base, size))) == 0
    ensures s != [] && s[0] == head
    ensures IsList(m, base, size, Word(m, NextAt(IndexToPtr(head, base, size))), s[1..])
  {
    hide IndexToPtr;
  }

  // ---- carving ----

  /** hi - 1, hi - 2, .., lo: what pushing lo, lo + 1, .., hi - 1 leaves on top of a stack. */
  ghost function Down(lo: nat, hi: nat): (s: seq<nat>)
    requires lo <= hi
    ensures |s| == hi - lo && forall k | 0 <= k < hi - lo :: s[k] == hi - 1 - k
  {
    seq(hi - lo, k requires 0 <= k < hi - lo => hi - 1 - k)
  }

  lemma DownJoin(lo: nat, mid: nat, hi: nat, s: seq<nat>)
    requires lo <= mid <= hi
    ensures Down(mid, hi) + (Down(lo, mid) + s) == Down(lo, hi) + s
  {
  }

  lemma DownMembers(lo: nat, hi: nat)
    requires lo <= hi
    ensures forall i: nat :: i in Down(lo, hi) <==> lo <= i < hi
    ensures Distinct(Down(lo, hi))
  {
    forall i: nat | lo <= i < hi
      ensures i in Down(lo, hi)
    {
      assert Down(lo, hi)[hi - 1 - i] == i;
    }
  }

  lemma JoinDistinct(s: seq<nat>, t: seq<nat>)
    requires Distinct(s) && Distinct(t) && forall i | i in s :: i !in t
    ensures Distinct(s + t)
  {
    forall j, k | 0 <= j < k < |s + t|
      ensures (s + t)[j] != (s + t)[k]
    {
      if j < |s| <= k {
        assert s[j] in s && t[k - |s|] in t;
      }
    }
  }

  /** The object at i, filled as a node for itself and the `packed` objects behind it, pushes them all. */
  lemma BuildNode(m: Memory, m': Memory, base: nat, size: uint32, head: uint16, s: seq<nat>, i: uint16, packed: uint16)
    requires size >= NODE_SIZE && IsList(m, base, size, head, s)
    requires i !in s && i != INVALID_INDEX && packed <= PackCapacity(size)
    requires forall j: nat | j != i :: SameObject(m, m', base, size, j)
    requires var p := IndexToPtr(i, base, size);
             && Word(m', NextAt(p)) == head && Word(m', CountAt(p)) == packed
             && forall k | 0 <= k < packed :: Word(m', SlotAt(p, k)) == i + 1 + k
    ensures IsList(m', base, size, i, Down(i, i + 1 + packed) + s)
  {
    hide IndexToPtr;
    var s' := Down(i, i + 1 + packed) + s;
    ListFrame(m, m', base, size, head, s);
    assert s'[packed + 1..] == s;
    assert SlotsHold(m', IndexToPtr(i, base, size), packed, s');
  }
}
