/** What the growth step of sa_alloc does and does not promise. The target
    is computed from the request alone, while the fresh block loses the
    zone header and its own descriptor, so a successful growth may still
    leave the retried search without a fit. */
module Growth {
  import opened Layout
  import opened Seqs
  import opened Zones
  import opened Arena
  import opened FreeList
  import opened Coalesce
  import opened Allocator

  /** The block carved from a fresh zone of the growth target has room for
      the request exactly when the request, plus both headers, still fits
      below the target: within its 1 MiB step on the rounding path, below
      twice cur_zone_sz on the doubling path. */
  lemma GrowthFits(n: nat, cur: nat)
    ensures GrowthTarget(n, cur) >= n + Z + H <==>
      if n > 2 * cur then n % MiB + Z + H <= MiB else n + Z + H <= 2 * cur
  {
    if n > 2 * cur {
      var q := n / MiB;
      assert n == q * MiB + n % MiB;
      assert n + MiB == (q + 1) * MiB + n % MiB;
      assert (n + MiB) / MiB == q + 1;
      assert GrowthTarget(n, cur) == (q + 1) * MiB;
    }
  }

  /** After the coalescing pass missed, a successful growth whose block has
      room for the request ends the ladder with a hit, from the fresh block
      at the list head. */
  lemma GrowthRetryHits(h: Heap, n: nat, mmap: Mmap)
    requires Tracked(h.len, h.free) && h.curZoneSize >= InitialSize
    requires FindRight(h, n).None?
    requires mmap(h.zones, GrowthTarget(n, h.curZoneSize)).Some?
    requires GrowthTarget(n, h.curZoneSize) >= n + Z + H
    ensures var r := Again(h, n, mmap, true, false);
      && r.ptr == Some(Data(mmap(h.zones, GrowthTarget(n, h.curZoneSize)).value + Z))
      && r.merged && r.realloced
  {
    var want := GrowthTarget(n, h.curZoneSize);
    var base := mmap(h.zones, want).value;
    var h2 := Grow(h, want, Some(base)).value;
    assert h2.(curZoneSize := want) == h2;
    assert h2.free[0] == base + Z && h2.len[base + Z] >= n;
    assert FindRight(h2, n).Some? && FindRight(h2, n).value.index == 0;
  }

  /** The highest zone end, the place a bump-style mapping would use next. */
  function Top(zones: seq<Zone>): (t: nat)
    ensures forall i :: 0 <= i < |zones| ==> zones[i].end <= t
  {
    if |zones| == 0 then 0
    else
      var rest := Top(zones[1..]);
      assert forall i :: 1 <= i < |zones| ==> zones[i] == zones[1..][i - 1];
      if zones[0].end > rest then zones[0].end else rest
  }

  /** A mapping that always succeeds and places each region above every
      zone, so what it returns is always fresh. */
  const Bump: Mmap := (zones: seq<Zone>, region: nat) => Some(Top(zones))

  lemma BumpIsFresh()
    ensures FreshOracle(Bump)
  {
  }

  /** A request of 1 MiB - 10 bytes on a fresh process takes the rounding
      path to a 1 MiB zone whose block holds only 1 MiB - 48 bytes, so
      sa_alloc returns NULL although the mapping succeeded. */
  lemma GrowthMayNotFit()
    ensures var r := Alloc(Empty, MiB - 10, Bump);
      && r.ptr.None? && r.merged && r.realloced
      && |r.heap.zones| == 2
      && r.heap.curZoneSize == MiB
  {
    var n := MiB - 10;
    var h0 := Heap([Zone(Z, InitialSize)], InitialSize, [Z], map[Z := InitialSize - Z - H], []);
    assert Top([]) == 0;
    assert Bump(Empty.zones, InitialSize) == Some(0);
    assert Empty.len[Z := InitialSize - Z - H] == h0.len;
    assert [Zone(Z, InitialSize)] + Empty.zones == h0.zones;
    assert [Z] + Empty.free == h0.free;
    assert Grow(Empty, InitialSize, Some(0)) == Some(h0);
    assert LazyInit(Empty, Bump) == Some(h0);
    assert FindRight(h0, n).None?;
    assert !WithinSameZone(h0.zones, Z, InitialSize);
    assert MergeRun(h0, Z, Z) == h0;
    assert NextEntry(h0.free, Z).None?;
    assert MergePass(h0, None) == h0;
    assert MergePass(h0, Some(Z)) == h0;
    assert DoFreelistMerge(h0) == h0;
    assert GrowthTarget(n, InitialSize) == MiB;
    var d := InitialSize + Z;
    var h2 := Heap([Zone(d, InitialSize + MiB), Zone(Z, InitialSize)], MiB, [d, Z],
                   map[Z := InitialSize - Z - H, d := MiB - Z - H], []);
    assert h0.zones[1..] == [];
    assert Top(h0.zones) == InitialSize;
    assert Bump(h0.zones, MiB) == Some(InitialSize);
    assert h0.len[d := MiB - Z - H] == h2.len;
    assert [Zone(d, InitialSize + MiB)] + h0.zones == h2.zones;
    assert [d] + h0.free == h2.free;
    assert Grow(h0, MiB, Bump(h0.zones, MiB)) == Some(h2);
    assert h2.free[1..] == [Z];
    assert FirstFit(h2.free[1..], h2.len, n).None?;
    assert FindRight(h2, n).None?;
  }
}
