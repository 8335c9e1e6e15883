/** How often a pointer occurs in stacks of pointers. */
module Counting {
  import opened Sequences
  import opened PackedLists

  ghost function Sum(counts: seq<nat>): nat {
    if counts == [] then 0 else counts[0] + Sum(counts[1..])
  }

  lemma {:induction false} SumUpdate(counts: seq<nat>, i: nat, n: nat)
    requires i < |counts|
    ensures Sum(counts[i := n]) + counts[i] == Sum(counts) + n
    ensures counts[i] <= Sum(counts)
  {
    if i > 0 {
      assert counts[i := n][1..] == counts[1..][i - 1 := n];
      SumUpdate(counts[1..], i - 1, n);
    }
  }

  lemma {:induction false} SumZero(counts: seq<nat>)
    requires forall i | 0 <= i < |counts| :: counts[i] == 0
    ensures Sum(counts) == 0
  {
    if counts != [] {
      SumZero(counts[1..]);
    }
  }

  /** How often p occurs. */
  ghost function Count(s: seq<nat>, p: nat): nat {
    multiset(s)[p]
  }

  ghost function InStacks(stacks: seq<seq<nat>>, p: nat): (r: seq<nat>)
    ensures |r| == |stacks| && forall i | 0 <= i < |r| :: r[i] == Count(stacks[i], p)
  {
    seq(|stacks|, i requires 0 <= i < |stacks| => Count(stacks[i], p))
  }

  ghost function InSlabs(slabs: seq<seq<seq<nat>>>, p: nat): (r: seq<nat>)
    ensures |r| == |slabs| && forall i | 0 <= i < |r| :: r[i] == Sum(InStacks(slabs[i], p))
  {
    seq(|slabs|, i requires 0 <= i < |slabs| => Sum(InStacks(slabs[i], p)))
  }

  lemma CountJoin(s: seq<nat>, t: seq<nat>, p: nat)
    ensures Count(s + t, p) == Count(s, p) + Count(t, p)
  {
  }

  lemma CountOne(q: nat, p: nat)
    ensures Count([q], p) == if q == p then 1 else 0
  {
  }

  lemma CountSplit(s: seq<nat>, k: nat, p: nat)
    requires k <= |s|
    ensures Count(s, p) == Count(s[..k], p) + Count(s[k..], p)
  {
    assert s == s[..k] + s[k..];
    CountJoin(s[..k], s[k..], p);
  }

  lemma CountNone(p: nat)
    ensures Count([], p) == 0
  {
  }

  lemma CountIn(s: seq<nat>, i: nat)
    requires i < |s|
    ensures Count(s, s[i]) > 0
  {
    assert s[i] in multiset(s);
  }

  lemma {:induction false} CountDistinct(s: seq<nat>, p: nat)
    requires Distinct(s)
    ensures Count(s, p) == if p in s then 1 else 0
  {
    if s != [] {
      assert s == [s[0]] + s[1..];
      CountJoin([s[0]], s[1..], p);
      CountOne(s[0], p);
      CountDistinct(s[1..], p);
    }
  }

  /** Replacing one stack of one slab changes how often p occurs by what changes in that stack. */
  lemma StackUpdate(slabs: seq<seq<seq<nat>>>, cpu: nat, c: nat, stack: seq<nat>, p: nat)
    requires cpu < |slabs| && c < |slabs[cpu]|
    ensures Sum(InSlabs(slabs[cpu := slabs[cpu][c := stack]], p)) + Count(slabs[cpu][c], p)
            == Sum(InSlabs(slabs, p)) + Count(stack, p)
    ensures Count(slabs[cpu][c], p) <= Sum(InSlabs(slabs, p))
  {
    hide Count, Sum;
    var slab, slab' := slabs[cpu], slabs[cpu][c := stack];
    var n := Sum(InStacks(slab', p));
    SumUpdate(InStacks(slab, p), c, Count(stack, p));
    assert InStacks(slab', p) == InStacks(slab, p)[c := Count(stack, p)];
    SumUpdate(InSlabs(slabs, p), cpu, n);
    assert InSlabs(slabs[cpu := slab'], p) == InSlabs(slabs, p)[cpu := n];
  }
}
