/** What the allocator's calls (allocator.hpp) leave of a transfer cache and a slab's stack, as plain
    sequences: no word about how many moved but that it was all there were, all that were asked for, or all
    that had room. */
module BatchMoves {
  import opened Widths

  /** s[hi - 1], s[hi - 2], .., s[lo]. */
  ghost function Backwards(s: seq<nat>, lo: nat, hi: nat): (r: seq<nat>)
    requires lo <= hi <= |s|
    ensures |r| == hi - lo && forall k | 0 <= k < hi - lo :: r[k] == s[hi - 1 - k]
  {
    seq(hi - lo, k requires 0 <= k < hi - lo => s[hi - 1 - k])
  }

  lemma LastBackwards(s: seq<nat>, lo: nat, hi: nat)
    requires 0 < lo <= hi <= |s|
    ensures Backwards(s, lo - 1, hi) == Backwards(s, lo, hi) + [s[lo - 1]]
  {
  }

  /** `took` came off the top of the cache: n pointers, unless the cache is empty now. */
  ghost predicate TakenOff(took: seq<nat>, n: nat, cached: seq<nat>, cached': seq<nat>) {
    cached == cached' + took && |took| <= n && (|took| == n || cached' == [])
  }

  /** The front of b went on the cache: all of it, unless the cache is full now. */
  ghost predicate PutOn(b: seq<nat>, cached: seq<nat>, cached': seq<nat>) {
    && |cached| <= |cached'| <= |cached| + |b| && |cached'| <= TRANSFER_CACHE_CAPACITY
    && cached' == cached + b[..|cached'| - |cached|]
    && (|cached'| == |cached| + |b| || |cached'| == TRANSFER_CACHE_CAPACITY)
  }

  /** The end of b went on the stack, last pointer first: all of b, unless the stack is full now. */
  ghost predicate PushedBack(b: seq<nat>, capacity: nat, stack: seq<nat>, stack': seq<nat>) {
    && |stack| <= |stack'| <= |stack| + |b| && |stack'| <= capacity
    && stack' == stack + Backwards(b, |b| + |stack| - |stack'|, |b|)
    && (|stack'| == |stack| + |b| || |stack'| == capacity)
  }

  /** b was pushed as far as the stack had room, and of what was left the front stored as far as the cache had. */
  ghost predicate Republished(b: seq<nat>, capacity: nat, cached: seq<nat>, stack: seq<nat>,
                              cached': seq<nat>, stack': seq<nat>) {
    PushedBack(b, capacity, stack, stack') && PutOn(b[..|b| + |stack| - |stack'|], cached, cached')
  }

  /** A batch came off the stack, or all there was, and went on the cache from the top down as far as that had
      room. */
  ghost predicate Drained(batchSize: nat, cached: seq<nat>, stack: seq<nat>, cached': seq<nat>, stack': seq<nat>) {
    && |stack'| <= |stack| <= |stack'| + batchSize && stack' == stack[..|stack'|]
    && (|stack| == |stack'| + batchSize || stack' == [])
    && PutOn(Backwards(stack, |stack'|, |stack|), cached, cached')
  }

  /** An allocate on an empty stack was given `batch`, from the top of the cache unless that was empty: its last
      pointer, q, went out and the others were republished. */
  ghost predicate Refilled(batch: seq<nat>, q: nat, batchSize: nat, capacity: nat, cached: seq<nat>,
                           cached': seq<nat>, stack': seq<nat>) {
    var left, rest := |batch| - 1, if |batch| <= |cached| then cached[..|cached| - |batch|] else [];
    && 1 <= |batch| <= batchSize && q == batch[left]
    && (cached != [] ==> TakenOff(batch, batchSize, cached, rest))
    && Republished(batch[..left], capacity, rest, [], cached', stack')
  }

  /** A pointer came back: on the stack while that had room, else on what a drain left of it; on a CPU without
      a slab neither stack nor cache changed. */
  ghost predicate PutBack(p: nat, batchSize: nat, capacity: nat, cached: seq<nat>, stack: seq<nat>,
                          cached': seq<nat>, stack': seq<nat>) {
    if |stack| < capacity then stack' == stack + [p] && cached' == cached
    else if capacity == 0 then stack' == stack && cached' == cached
    else
      && stack' != [] && stack'[|stack'| - 1] == p
      && Drained(batchSize, cached, stack, cached', stack'[..|stack'| - 1])
  }

  // ---- each has one outcome ----

  lemma PutOnOnce(b: seq<nat>, cached: seq<nat>, x: seq<nat>, y: seq<nat>)
    requires PutOn(b, cached, x) && PutOn(b, cached, y)
    ensures x == y
  {
  }

  lemma RepublishedOnce(b: seq<nat>, capacity: nat, cached: seq<nat>, stack: seq<nat>, x: seq<nat>, s: seq<nat>,
                        y: seq<nat>, u: seq<nat>)
    requires Republished(b, capacity, cached, stack, x, s) && Republished(b, capacity, cached, stack, y, u)
    ensures x == y && s == u
  {
    assert |s| == |u|;
  }

  lemma DrainedOnce(batchSize: nat, cached: seq<nat>, stack: seq<nat>, x: seq<nat>, s: seq<nat>,
                    y: seq<nat>, u: seq<nat>)
    requires Drained(batchSize, cached, stack, x, s) && Drained(batchSize, cached, stack, y, u)
    ensures x == y && s == u
  {
    assert |s| == |u|;
    PutOnOnce(Backwards(stack, |s|, |stack|), cached, x, y);
  }

  /** What an allocate from a cache with pointers hands out and leaves is fixed. */
  lemma RefilledOnce(batchSize: nat, capacity: nat, cached: seq<nat>, b: seq<nat>, q: nat, x: seq<nat>, s: seq<nat>,
                     c: seq<nat>, r: nat, y: seq<nat>, u: seq<nat>)
    requires cached != [] && Refilled(b, q, batchSize, capacity, cached, x, s)
    requires Refilled(c, r, batchSize, capacity, cached, y, u)
    ensures b == c && q == r && x == y && s == u
  {
    assert |b| == |c|;
    assert b == cached[|cached| - |b|..] == c;
    RepublishedOnce(b[..|b| - 1], capacity, cached[..|cached| - |b|], [], x, s, y, u);
  }

  /** And so is what a deallocate leaves. */
  lemma PutBackOnce(p: nat, batchSize: nat, capacity: nat, cached: seq<nat>, stack: seq<nat>, x: seq<nat>, s: seq<nat>,
                    y: seq<nat>, u: seq<nat>)
    requires PutBack(p, batchSize, capacity, cached, stack, x, s)
    requires PutBack(p, batchSize, capacity, cached, stack, y, u)
    ensures x == y && s == u
  {
    if capacity > 0 && |stack| >= capacity {
      DrainedOnce(batchSize, cached, stack, x, s[..|s| - 1], y, u[..|u| - 1]);
      assert s == s[..|s| - 1] + [p] && u == u[..|u| - 1] + [p];
    }
  }
}
