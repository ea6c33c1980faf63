/** Coalescing keeps the allocator invariant: a leader only absorbs the
    free block that starts where it ends and shares its zone, so the grown
    leader still lies in that zone and overlaps nothing else. */
module MergeInv {
  import opened Layout
  import opened Seqs
  import opened Zones
  import opened Arena
  import opened FreeList
  import opened Coalesce

  /** The preconditions of one merge as do_freelist_merge meets them. */
  predicate Absorbable(h: Heap, leader: nat, j: nat)
    requires Books(h)
  {
    && leader in h.free
    && j < |h.free|
    && h.free[j] == BlockEnd(leader, h.len[leader])
    && WithinSameZone(h.zones, leader, h.free[j])
  }

  lemma MergeBooks(h: Heap, leader: nat, j: nat)
    requires Inv(h) && Absorbable(h, leader, j)
    ensures Books(Merge(h, leader, j))
    ensures forall a :: Owned(Merge(h, leader, j), a) <==> Owned(h, a) && a != h.free[j]
  {
    RemoveAtDistinct(h.free, j);
    RemoveAtElements(h.free, j);
    assert h.free[j] !in h.used;
  }

  /** The grown leader stays in the zone holding both it and the block
      it absorbs; other blocks keep their place. */
  lemma MergePlaced(h: Heap, leader: nat, j: nat)
    requires Inv(h) && Absorbable(h, leader, j)
    requires Books(Merge(h, leader, j))
    requires forall a :: Owned(Merge(h, leader, j), a) <==> Owned(h, a) && a != h.free[j]
    ensures forall a :: Owned(Merge(h, leader, j), a) ==> Placed(Merge(h, leader, j), a)
  {
    var h' := Merge(h, leader, j);
    var next := h.free[j];
    assert Owned(h, leader) && Owned(h, next);
    var zi :| 0 <= zi < |h.zones| && Contains(h.zones[zi], leader) && Contains(h.zones[zi], next);
    assert Placed(h, next);
    var zj :| 0 <= zj < |h.zones| && h.zones[zj].start <= next && BlockEnd(next, h.len[next]) <= h.zones[zj].end;
    assert Contains(h.zones[zj], next);
    SharedAddressSameZone(h.zones, zi, zj, next);
    assert BlockEnd(leader, h'.len[leader]) == BlockEnd(next, h.len[next]);
    forall a | Owned(h', a)
      ensures Placed(h', a)
    {
      if a == leader {
        assert h'.zones[zi].start <= a && BlockEnd(a, h'.len[a]) <= h'.zones[zi].end;
      } else {
        assert Placed(h, a);
      }
    }
  }

  /** The grown leader covers exactly the bytes of the leader and the
      absorbed block, so it overlaps nothing the two did not. */
  lemma MergeSeparate(h: Heap, leader: nat, j: nat)
    requires Inv(h) && Absorbable(h, leader, j)
    requires Books(Merge(h, leader, j))
    requires forall a :: Owned(Merge(h, leader, j), a) <==> Owned(h, a) && a != h.free[j]
    ensures var h' := Merge(h, leader, j);
      forall a, b :: Owned(h', a) && Owned(h', b) && a != b ==> Separate(h'.len, a, b)
  {
    var h' := Merge(h, leader, j);
    var next := h.free[j];
    assert Owned(h, leader) && Owned(h, next);
    assert BlockEnd(leader, h'.len[leader]) == BlockEnd(next, h.len[next]);
    forall a, b | Owned(h', a) && Owned(h', b) && a != b
      ensures Separate(h'.len, a, b)
    {
      if a == leader {
        assert Separate(h.len, b, leader) && Separate(h.len, b, next);
      } else if b == leader {
        assert Separate(h.len, a, leader) && Separate(h.len, a, next);
      } else {
        assert Separate(h.len, a, b);
      }
    }
  }

  lemma MergeTiled(h: Heap, leader: nat, j: nat)
    requires Inv(h) && Absorbable(h, leader, j)
    requires Books(Merge(h, leader, j))
    requires forall a :: Owned(Merge(h, leader, j), a) <==> Owned(h, a) && a != h.free[j]
    ensures Tiled(Merge(h, leader, j))
  {
    MergePlaced(h, leader, j);
    MergeSeparate(h, leader, j);
  }

  /** One merge step preserves the invariant. */
  lemma MergeKeepsInv(h: Heap, leader: nat, j: nat)
    requires Inv(h) && Absorbable(h, leader, j)
    ensures Inv(Merge(h, leader, j))
  {
    var h' := Merge(h, leader, j);
    MergeBooks(h, leader, j);
    MergeTiled(h, leader, j);
    forall a | a in h.used
      ensures a != leader
    {
      assert Owned(h, a);
    }
    SpanAgree(h.len, h'.len, h.used);
  }

  /** A leader's whole run preserves the invariant. */
  lemma {:induction false} MergeRunKeepsInv(h: Heap, leader: nat, p: nat)
    requires Inv(h) && leader in h.free && p in h.len
    requires BlockEnd(p, h.len[p]) == BlockEnd(leader, h.len[leader])
    decreases |h.free|
    ensures Inv(MergeRun(h, leader, p))
  {
    var next := BlockEnd(p, h.len[p]);
    if WithinSameZone(h.zones, leader, next) && next in h.free {
      var j := Pos(h.free, next);
      MergeStep(h, leader, j);
      MergeKeepsInv(h, leader, j);
      MergeRunKeepsInv(Merge(h, leader, j), leader, next);
    }
  }

  lemma {:induction false} MergePassKeepsInv(h: Heap, leader: Option<nat>)
    requires Inv(h)
    requires leader.Some? ==> leader.value in h.free
    decreases if leader.Some? then |h.free| - Pos(h.free, leader.value) else 0
    ensures Inv(MergePass(h, leader))
  {
    if leader.Some? {
      var l := leader.value;
      var h1 := MergeRun(h, l, l);
      MergeRunKeepsInv(h, l, l);
      PosOfNext(h1.free, l);
      MergePassKeepsInv(h1, NextEntry(h1.free, l));
    }
  }

  /** do_freelist_merge preserves the invariant. */
  lemma CoalesceKeepsInv(h: Heap)
    requires Inv(h)
    ensures Inv(DoFreelistMerge(h))
  {
    MergePassKeepsInv(h, if |h.free| == 0 then None else Some(h.free[0]));
  }
}
