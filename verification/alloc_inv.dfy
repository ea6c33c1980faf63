/** sa_alloc and sa_free keep the allocator invariant, so every reachable
    state has disjoint blocks inside the zones and loses no byte. */
module AllocInv {
  import opened Layout
  import opened Seqs
  import opened Zones
  import opened Arena
  import opened FreeList
  import opened Coalesce
  import opened Allocator
  import opened GrowInv
  import opened UseInv
  import opened MergeInv

  /** sa_free of a releasable pointer preserves the invariant. */
  lemma FreeKeepsInv(h: Heap, ptr: Option<nat>)
    requires Inv(h) && Releasable(h, ptr)
    ensures Inv(Free(h, ptr))
  {
    if ptr.Some? {
      var d := ptr.value - H;
      var h' := Free(h, ptr);
      var i := Pos(h.used, d);
      assert h'.used == RemoveAt(h.used, i);
      RemoveAtDistinct(h.used, i);
      RemoveAtElements(h.used, i);
      assert d !in h.free;
      PushDistinct(d, h.free);
      assert Books(h');
      assert forall a :: Owned(h', a) <==> Owned(h, a);
      assert Tiled(h');
      SpanRemoveAt(h.len, h.used, i);
      assert Accounted(h');
    }
  }

  /** The retry ladder preserves the invariant whatever the mapping call
      answers, as long as what it hands out is fresh. */
  lemma {:induction false} AgainKeepsInv(h: Heap, n: nat, mmap: Mmap, merged: bool, realloced: bool)
    requires Inv(h) && |h.zones| > 0 && FreshOracle(mmap)
    requires realloced ==> merged
    decreases (if merged then 0 else 2) + (if realloced then 0 else 1)
    ensures Inv(Again(h, n, mmap, merged, realloced).heap)
  {
    var r := Again(h, n, mmap, merged, realloced);
    match FindRight(h, n)
    case Some(s) =>
      assert r == Take(h, s.index, n, merged, realloced);
      TakeKeepsInv(h, s.index, n, merged, realloced);
    case None =>
      if !merged {
        var h1 := DoFreelistMerge(h);
        assert r == Again(h1, n, mmap, true, realloced);
        CoalesceKeepsInv(h);
        AgainKeepsInv(h1, n, mmap, true, realloced);
      } else if !realloced {
        var want := GrowthTarget(n, h.curZoneSize);
        match mmap(h.zones, want)
        case None =>
          assert r == Outcome(h, None, merged, realloced);
        case Some(base) =>
          var h2 := Grow(h, want, Some(base)).value;
          assert r == Again(h2.(curZoneSize := want), n, mmap, merged, true);
          assert h2.(curZoneSize := want) == h2;
          GrowPreservesInv(h, want, base);
          AgainKeepsInv(h2, n, mmap, merged, true);
      }
  }

  /** sa_alloc preserves the invariant. */
  lemma AllocKeepsInv(h: Heap, n: nat, mmap: Mmap)
    requires Inv(h) && FreshOracle(mmap)
    ensures Inv(Alloc(h, n, mmap).heap)
  {
    if n > 0 {
      if |h.zones| == 0 {
        match mmap(h.zones, InitialSize)
        case None =>
        case Some(base) =>
          GrowPreservesInv(h, InitialSize, base);
          AgainKeepsInv(Grow(h, InitialSize, Some(base)).value, n, mmap, false, false);
      } else {
        AgainKeepsInv(h, n, mmap, false, false);
      }
    }
  }
}
