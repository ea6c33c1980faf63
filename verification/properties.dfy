/** What callers of the allocator can rely on, stated over reachable
    states (those satisfying the invariant). */
module Properties {
  import opened Layout
  import opened Seqs
  import opened Zones
  import opened Arena
  import opened FreeList
  import opened Coalesce
  import opened Allocator
  import opened AllocInv
  import opened GrowInv
  import opened UseInv
  import opened MergeInv

  /** The block at `d` lies in a zone and overlaps no other owned block. */
  ghost predicate Isolated(h: Heap, d: nat)
    requires d in h.len
  {
    && Placed(h, d)
    && forall a :: Owned(h, a) && a != d && a in h.len ==> Separate(h.len, a, d)
  }

  /** The block at the head of the handed-out list of a reachable state
      is not listed again, is off the free list, lies in a zone and
      overlaps no other owned block. */
  lemma HeadOfUsed(h: Heap, d: nat, rest: seq<nat>)
    requires Inv(h) && h.used == [d] + rest
    ensures d !in rest && d !in h.free && d in h.len
    ensures Isolated(h, d)
  {
    assert h.used[0] == d;
    forall k | 0 <= k < |rest|
      ensures rest[k] != d
    {
      assert h.used[k + 1] == rest[k];
    }
    assert Owned(h, d);
  }

  /** `r` hands out a block that was not handed out in `before`, is off
      the free list, holds at least `n` bytes, lies in a zone and overlaps
      no other free or handed-out block. */
  ghost predicate FreshlyHandedOut(before: Heap, r: Outcome, n: nat)
  {
    && r.ptr.Some? && r.ptr.value >= H
    && var d := r.ptr.value - H;
    && d !in before.used && d in r.heap.used && d !in r.heap.free
    && d in r.heap.len && r.heap.len[d] >= n
    && Isolated(r.heap, d)
  }

  /** In a reachable outcome, a recorded hand-out is a fresh block. */
  lemma HandOutIsFresh(before: Heap, r: Outcome, n: nat)
    requires Inv(r.heap) && HandsOut(before, r, n) && r.ptr.Some?
    ensures FreshlyHandedOut(before, r, n)
  {
    HeadOfUsed(r.heap, r.ptr.value - H, before.used);
  }

  /** A successful sa_alloc hands out a fresh block (see
      FreshlyHandedOut) and keeps the invariant. */
  lemma AllocHandsOutFreshBlock(h: Heap, n: nat, mmap: Mmap)
    requires Inv(h) && FreshOracle(mmap)
    requires Alloc(h, n, mmap).ptr.Some?
    ensures Inv(Alloc(h, n, mmap).heap)
    ensures FreshlyHandedOut(h, Alloc(h, n, mmap), n)
  {
    AllocKeepsInv(h, n, mmap);
    HandOutIsFresh(h, Alloc(h, n, mmap), n);
  }

  /** In a reachable outcome that hands out at most one block and keeps
      the lengths of blocks already handed out, a block handed out before
      is not returned and stays handed out with its length. */
  lemma OthersStayHandedOut(before: Heap, r: Outcome, n: nat, d: nat)
    requires Inv(r.heap) && HandsOut(before, r, n) && d in before.used
    requires Tracked(before.len, before.used)
    requires r.ptr.None? ==> r.heap.used == before.used
    requires forall a :: a in before.used ==> a in r.heap.len && r.heap.len[a] == before.len[a]
    ensures r.ptr != Some(Data(d))
    ensures d in r.heap.used && d in r.heap.len && r.heap.len[d] == before.len[d]
  {
    if r.ptr.Some? {
      HeadOfUsed(r.heap, r.ptr.value - H, before.used);
    }
  }

  /** An allocation never returns a block that is still handed out, and
      such a block stays handed out with its length. */
  lemma HandedOutStays(h: Heap, n: nat, mmap: Mmap, d: nat)
    requires Inv(h) && FreshOracle(mmap) && d in h.used
    ensures Alloc(h, n, mmap).ptr != Some(Data(d))
    ensures d in Alloc(h, n, mmap).heap.used
    ensures d in Alloc(h, n, mmap).heap.len && Alloc(h, n, mmap).heap.len[d] == h.len[d]
  {
    UsedLengthsKept(h, n, mmap);
    AllocKeepsInv(h, n, mmap);
    OthersStayHandedOut(h, Alloc(h, n, mmap), n, d);
  }

  /** A released block is the free-list head, so the next request it can
      satisfy gets it back, with no coalescing or growth. */
  lemma ReleasedBlockReused(h: Heap, p: nat, n: nat, mmap: Mmap)
    requires Inv(h) && Releasable(h, Some(p)) && n > 0
    requires h.len[p - H] >= n
    ensures Inv(Free(h, Some(p)))
    ensures var r := Alloc(Free(h, Some(p)), n, mmap);
      r.ptr == Some(p) && !r.merged && !r.realloced
  {
    var h2 := Free(h, Some(p));
    FreeKeepsInv(h, Some(p));
    assert h2.free[0] == p - H && h2.len[p - H] >= n;
    assert |h2.zones| > 0;
    assert LazyInit(h2, mmap) == Some(h2);
    assert FindRight(h2, n) == Some(Slot(0, None));
  }

  /** A block just handed out by a reachable outcome, once released, is
      handed back by the next request of the same size. */
  lemma ReleaseAndRetake(before: Heap, r: Outcome, n: nat, mmap2: Mmap)
    requires Inv(r.heap) && HandsOut(before, r, n) && r.ptr.Some? && n > 0
    ensures Releasable(r.heap, r.ptr)
    ensures Inv(Free(r.heap, r.ptr))
    ensures var r2 := Alloc(Free(r.heap, r.ptr), n, mmap2);
      r2.ptr == r.ptr && !r2.merged && !r2.realloced
  {
    ReleasedBlockReused(r.heap, r.ptr.value, n, mmap2);
  }

  /** LIFO reuse: allocating, releasing the result and allocating the same
      size again returns the same pointer, with no coalescing or growth. */
  lemma LifoReuse(h: Heap, n: nat, mmap: Mmap, mmap2: Mmap)
    requires Inv(h) && FreshOracle(mmap)
    requires Alloc(h, n, mmap).ptr.Some?
    ensures var r := Alloc(h, n, mmap);
      && Inv(r.heap) && Releasable(r.heap, r.ptr)
      && var h2 := Free(r.heap, r.ptr);
      && Inv(h2)
      && var r2 := Alloc(h2, n, mmap2);
      r2.ptr == r.ptr && !r2.merged && !r2.realloced
  {
    AllocKeepsInv(h, n, mmap);
    ReleaseAndRetake(h, Alloc(h, n, mmap), n, mmap2);
  }

  /** A block just handed out by a reachable outcome survives a further
      request of the same size, which returns a different pointer; released
      afterwards, it is handed back by the next request of that size. */
  lemma ReuseAfterAlloc(before: Heap, r1: Outcome, n: nat, mmap: Mmap, mmap2: Mmap)
    requires Inv(r1.heap) && HandsOut(before, r1, n) && r1.ptr.Some? && n > 0
    requires FreshOracle(mmap)
    ensures var r2 := Alloc(r1.heap, n, mmap);
      && r2.ptr != r1.ptr
      && Inv(r2.heap) && Releasable(r2.heap, r1.ptr)
      && var h3 := Free(r2.heap, r1.ptr);
      && Inv(h3)
      && Alloc(h3, n, mmap2).ptr == r1.ptr
  {
    AllocKeepsInv(r1.heap, n, mmap);
    HandedOutStays(r1.heap, n, mmap, r1.ptr.value - H);
    RetakeAfter(Alloc(r1.heap, n, mmap), r1.ptr, n, mmap2);
  }

  /** The second half of ReuseAfterAlloc, over any reachable state that
      still holds the block of `ptr`. */
  lemma RetakeAfter(r2: Outcome, ptr: Option<nat>, n: nat, mmap2: Mmap)
    requires Inv(r2.heap) && n > 0 && ptr.Some? && ptr.value >= H
    requires ptr.value - H in r2.heap.used && r2.heap.len[ptr.value - H] >= n
    ensures Releasable(r2.heap, ptr)
    ensures Inv(Free(r2.heap, ptr))
    ensures Alloc(Free(r2.heap, ptr), n, mmap2).ptr == ptr
  {
    ReleasedBlockReused(r2.heap, ptr.value, n, mmap2);
  }

  /** Two allocations in a row return different pointers; releasing the
      first and allocating the same size again returns the first. */
  lemma InterleavedReuse(h: Heap, n: nat, mmap: Mmap, mmap2: Mmap)
    requires Inv(h) && FreshOracle(mmap)
    requires Alloc(h, n, mmap).ptr.Some?
    ensures var r1 := Alloc(h, n, mmap);
      && Inv(r1.heap)
      && var r2 := Alloc(r1.heap, n, mmap);
      && r2.ptr != r1.ptr
      && Inv(r2.heap) && Releasable(r2.heap, r1.ptr)
      && var h3 := Free(r2.heap, r1.ptr);
      && Inv(h3)
      && Alloc(h3, n, mmap2).ptr == r1.ptr
  {
    AllocKeepsInv(h, n, mmap);
    ReuseAfterAlloc(h, Alloc(h, n, mmap), n, mmap, mmap2);
  }

  /** The reuse scenario from process start: two allocations of the same
      size return different pointers, and after releasing the first, the
      next allocation of that size returns it again. */
  lemma ReuseScenario(n: nat, mmap: Mmap)
    requires FreshOracle(mmap)
    ensures var r1 := Alloc(Empty, n, mmap);
      r1.ptr.Some? ==>
      && Inv(r1.heap)
      && var r2 := Alloc(r1.heap, n, mmap);
      && r2.ptr != r1.ptr
      && Inv(r2.heap) && Releasable(r2.heap, r1.ptr)
      && var h3 := Free(r2.heap, r1.ptr);
      && Inv(h3)
      && Alloc(h3, n, mmap).ptr == r1.ptr
    ensures var r1 := Alloc(Empty, n, mmap);
      r1.ptr.Some? && 2 * n + H <= InitialSize - Z - H ==> Alloc(r1.heap, n, mmap).ptr.Some?
  {
    EmptyInv();
    if Alloc(Empty, n, mmap).ptr.Some? {
      InterleavedReuse(Empty, n, mmap, mmap);
      if 2 * n + H <= InitialSize - Z - H {
        SmallRequestsSucceed(n, mmap);
      }
    }
  }

  /** The first rung of the ladder: once a zone is mapped, a request some
      entry fits is served from the first such entry in list order, before
      any coalescing or growth, and the zones are left alone. */
  lemma FirstFitHit(h: Heap, n: nat, mmap: Mmap)
    requires Tracked(h.len, h.free) && Distinct(h.free) && Sized(h)
    requires 0 < n && |h.zones| > 0 && FindRight(h, n).Some?
    ensures var r := Alloc(h, n, mmap);
      && r.ptr == Some(Data(h.free[FindRight(h, n).value.index]))
      && !r.merged && !r.realloced
      && r.heap.zones == h.zones
  {
    assert LazyInit(h, mmap) == Some(h);
    var i := FindRight(h, n).value.index;
    assert Alloc(h, n, mmap) == Take(h, i, n, false, false);
  }

  /** A hit on the list head needs no mapping: with a zone mapped and the
      first entry long enough, sa_alloc returns a block. */
  lemma HeadFitHits(h: Heap, n: nat, mmap: Mmap)
    requires Tracked(h.len, h.free) && Distinct(h.free) && Sized(h)
    requires 0 < n && |h.zones| > 0 && |h.free| > 0 && h.len[h.free[0]] >= n
    ensures var r := Alloc(h, n, mmap);
      r.ptr == Some(Data(h.free[0])) && !r.merged && !r.realloced
  {
    assert FindRight(h, n).value.index == 0;
    FirstFitHit(h, n, mmap);
  }

  /** A single free block with room for two requests and a descriptor is
      split by sa_alloc(n): the tail stays as the only entry, with at
      least `n` bytes. */
  lemma SplitLeavesTail(h: Heap, n: nat, mmap: Mmap)
    requires Tracked(h.len, h.free) && Distinct(h.free) && Sized(h)
    requires 0 < n && |h.zones| > 0 && |h.free| == 1 && 2 * n + H <= h.len[h.free[0]]
    ensures var r := Alloc(h, n, mmap);
      && r.ptr == Some(Data(h.free[0]))
      && r.heap.zones == h.zones
      && r.heap.free == [Data(h.free[0]) + n]
      && r.heap.len[Data(h.free[0]) + n] >= n
  {
    HeadFitHits(h, n, mmap);
    var d := h.free[0];
    var h1 := Use(h, 0, n);
    assert SplitWorthy(h.len[d], n);
    assert h1.free == [Data(d) + n];
    assert Alloc(h, n, mmap) == Take(h, 0, n, false, false);
  }

  /** From process start, once the initial mapping succeeds, the first
      sa_alloc(n) splits the initial block and leaves a tail of at least
      `n` bytes at the list head, so a second sa_alloc(n) succeeds as well
      whenever two such blocks and a descriptor fit in the initial zone. */
  lemma SmallRequestsSucceed(n: nat, mmap: Mmap)
    requires 0 < n && 2 * n + H <= InitialSize - Z - H
    requires mmap([], InitialSize).Some?
    ensures var r1 := Alloc(Empty, n, mmap);
      && r1.ptr == Some(Data(mmap([], InitialSize).value + Z))
      && |r1.heap.zones| == 1
      && r1.heap.free == [r1.ptr.value + n]
      && Alloc(r1.heap, n, mmap).ptr == Some(Data(r1.ptr.value + n))
  {
    var h0 := LazyInit(Empty, mmap).value;
    assert Alloc(Empty, n, mmap) == Again(h0, n, mmap, false, false);
    assert LazyInit(h0, mmap) == Some(h0);
    assert Alloc(h0, n, mmap) == Again(h0, n, mmap, false, false);
    SplitLeavesTail(h0, n, mmap);
    var r1 := Alloc(Empty, n, mmap);
    HeadFitHits(r1.heap, n, mmap);
  }

  /** Splitting or consuming a free entry leaves the lengths of handed-out
      blocks alone: the split point lies strictly inside the entry, where
      no owned block starts. */
  lemma TakeKeepsUsedLengths(h: Heap, i: nat, n: nat, merged: bool, realloced: bool)
    requires Inv(h) && i < |h.free| && h.len[h.free[i]] >= n
    ensures var h' := Take(h, i, n, merged, realloced).heap;
      forall a :: a in h.used ==> a in h'.len && h'.len[a] == h.len[a]
  {
    var node := h.free[i];
    var h' := Take(h, i, n, merged, realloced).heap;
    assert h'.len == Use(h, i, n).len;
    if SplitWorthy(h.len[node], n) {
      var tail := Data(node) + n;
      NothingStartsInside(h, node, tail);
      forall a | a in h.used
        ensures a != node && a != tail
      {
        assert Owned(h, a);
      }
    }
  }

  /** Mapping a fresh zone carves its descriptor at an address no owned
      block uses. */
  lemma GrowKeepsUsedLengths(h: Heap, region: nat, base: nat)
    requires Inv(h) && region >= InitialSize && Fresh(h.zones, base, region)
    ensures var h' := Grow(h, region, Some(base)).value;
      forall a :: a in h.used ==> a in h'.len && h'.len[a] == h.len[a]
  {
    forall a | a in h.used
      ensures a != base + Z
    {
      OwnedOutsideFresh(h, base, region, a);
    }
  }

  /** The retry ladder keeps the lengths of handed-out blocks. */
  lemma {:induction false} AgainKeepsUsedLengths(h: Heap, n: nat, mmap: Mmap, merged: bool, realloced: bool)
    requires Inv(h) && |h.zones| > 0 && FreshOracle(mmap)
    requires realloced ==> merged
    decreases (if merged then 0 else 2) + (if realloced then 0 else 1)
    ensures var h' := Again(h, n, mmap, merged, realloced).heap;
      forall a :: a in h.used ==> a in h'.len && h'.len[a] == h.len[a]
  {
    var r := Again(h, n, mmap, merged, realloced);
    match FindRight(h, n)
    case Some(s) =>
      assert r == Take(h, s.index, n, merged, realloced);
      TakeKeepsUsedLengths(h, s.index, n, merged, realloced);
    case None =>
      if !merged {
        var h1 := DoFreelistMerge(h);
        assert r == Again(h1, n, mmap, true, realloced);
        CoalesceFacts(h);
        CoalesceKeepsInv(h);
        AgainKeepsUsedLengths(h1, n, mmap, true, realloced);
        forall a | a in h.used
          ensures a !in h.free
        {
        }
      } else if !realloced {
        var want := GrowthTarget(n, h.curZoneSize);
        match mmap(h.zones, want)
        case None =>
          assert r == Outcome(h, None, merged, realloced);
        case Some(base) =>
          var h2 := Grow(h, want, Some(base)).value;
          assert r == Again(h2.(curZoneSize := want), n, mmap, merged, true);
          assert h2.(curZoneSize := want) == h2;
          GrowPreservesInv(h, want, base);
          GrowKeepsUsedLengths(h, want, base);
          AgainKeepsUsedLengths(h2, n, mmap, merged, true);
      }
  }

  /** Blocks that are handed out keep their lengths across an allocation:
      only free-list entries are split or merged, and growth carves only
      a fresh address. */
  lemma UsedLengthsKept(h: Heap, n: nat, mmap: Mmap)
    requires Inv(h) && FreshOracle(mmap)
    ensures var r := Alloc(h, n, mmap);
      forall a :: a in h.used ==> a in r.heap.len && r.heap.len[a] == h.len[a]
  {
    if n > 0 && |h.zones| > 0 {
      AgainKeepsUsedLengths(h, n, mmap, false, false);
    }
  }
}
