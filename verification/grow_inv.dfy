/** Zone growth keeps the allocator invariant: the fresh zone's single
    block overlaps nothing owned and adds exactly the zone's usable bytes. */
module GrowInv {
  import opened Layout
  import opened Seqs
  import opened Zones
  import opened Arena
  import opened Allocator

  /** An owned block lies entirely below or entirely above a fresh
      mapping. */
  lemma OwnedOutsideFresh(h: Heap, base: nat, region: nat, a: nat)
    requires Inv(h) && Fresh(h.zones, base, region) && Owned(h, a)
    ensures a in h.len
    ensures BlockEnd(a, h.len[a]) <= base || base + region <= a
  {
    assert Placed(h, a);
    var i :| 0 <= i < |h.zones| && h.zones[i].start <= a && BlockEnd(a, h.len[a]) <= h.zones[i].end;
  }

  lemma GrowZonesWf(zones: seq<Zone>, base: nat, region: nat)
    requires ZonesWf(zones) && Fresh(zones, base, region) && region >= Z
    ensures ZonesWf([Zone(base + Z, base + region)] + zones)
  {
    var zs := [Zone(base + Z, base + region)] + zones;
    forall i, j | 0 <= i < j < |zs|
      ensures Apart(zs[i], zs[j])
    {
      if i > 0 {
        assert zs[i] == zones[i - 1] && zs[j] == zones[j - 1];
      } else {
        assert zs[j] == zones[j - 1];
      }
    }
  }

  /** The fresh descriptor is neither free nor handed out, and carving it
      changes no other length. */
  lemma GrowBooks(h: Heap, region: nat, base: nat)
    requires Inv(h) && region >= InitialSize && Fresh(h.zones, base, region)
    ensures var h' := Grow(h, region, Some(base)).value;
      && Books(h')
      && (forall a :: Owned(h, a) ==> a != base + Z)
      && (forall a :: a in h.len && a != base + Z ==> h'.len[a] == h.len[a])
  {
    var d := base + Z;
    forall a | Owned(h, a)
      ensures a != d
    {
      OwnedOutsideFresh(h, base, region, a);
    }
    forall a | a in h.free || a in h.used
      ensures a != d
    {
      assert Owned(h, a);
    }
    PushDistinct(d, h.free);
  }

  /** The fresh block lies in the fresh zone, other blocks stay in their
      zones, and the fresh block overlaps no owned block. */
  lemma GrowTiled(h: Heap, region: nat, base: nat)
    requires Inv(h) && region >= InitialSize && Fresh(h.zones, base, region)
    requires Books(Grow(h, region, Some(base)).value)
    requires forall a :: Owned(h, a) ==> a != base + Z
    ensures Tiled(Grow(h, region, Some(base)).value)
  {
    var h' := Grow(h, region, Some(base)).value;
    var d := base + Z;
    forall a | Owned(h, a)
      ensures a in h.len
      ensures BlockEnd(a, h.len[a]) <= d || BlockEnd(d, h'.len[d]) <= a
    {
      OwnedOutsideFresh(h, base, region, a);
    }
    forall a | Owned(h', a)
      ensures Placed(h', a)
    {
      if a == d {
        assert h'.zones[0].start <= a && BlockEnd(a, h'.len[a]) <= h'.zones[0].end;
      } else {
        assert Owned(h, a) && Placed(h, a);
        var i :| 0 <= i < |h.zones| && h.zones[i].start <= a && BlockEnd(a, h.len[a]) <= h.zones[i].end;
        assert h'.zones[i + 1] == h.zones[i];
      }
    }
    forall a, b | Owned(h', a) && Owned(h', b) && a != b
      ensures Separate(h'.len, a, b)
    {
      if a != d && b != d {
        assert Separate(h.len, a, b);
      }
    }
  }

  /** The fresh zone adds exactly its usable bytes, all in the fresh
      block. */
  lemma GrowAccounted(h: Heap, region: nat, base: nat)
    requires Inv(h) && region >= InitialSize && Fresh(h.zones, base, region)
    requires Books(Grow(h, region, Some(base)).value)
    requires forall a :: Owned(h, a) ==> a != base + Z
    ensures Accounted(Grow(h, region, Some(base)).value)
  {
    var h' := Grow(h, region, Some(base)).value;
    forall a | a in h.free
      ensures h'.len[a] == h.len[a]
    {
      assert Owned(h, a);
    }
    forall a | a in h.used
      ensures h'.len[a] == h.len[a]
    {
      assert Owned(h, a);
    }
    SpanAgree(h.len, h'.len, h.free);
    SpanAgree(h.len, h'.len, h.used);
    assert h'.free[1..] == h.free;
    assert h'.zones[1..] == h.zones;
  }

  /** grow_avail_mem, on success, preserves the invariant. */
  lemma GrowPreservesInv(h: Heap, region: nat, base: nat)
    requires Inv(h) && region >= InitialSize && Fresh(h.zones, base, region)
    ensures Grow(h, region, Some(base)).Some?
    ensures Inv(Grow(h, region, Some(base)).value)
  {
    GrowZonesWf(h.zones, base, region);
    GrowBooks(h, region, base);
    GrowTiled(h, region, base);
    GrowAccounted(h, region, base);
  }
}
