/** The two entry points, sa_alloc and sa_free, and the zone growth they
    rely on. */
module Allocator {
  import opened Layout
  import opened Seqs
  import opened Zones
  import opened Arena
  import opened FreeList
  import opened Coalesce

  /** grow_avail_mem: `answer` is what the mapping call returned for a
      region of `region` bytes. On failure nothing changes. On success the
      new zone and one descriptor spanning it are put at the heads of their
      lists and cur_zone_sz becomes `region`. */
  function Grow(h: Heap, region: nat, answer: Option<nat>): (r: Option<Heap>)
    requires region >= Z + H
    ensures r.Some? <==> answer.Some?
    ensures r.Some? ==>
      var base := answer.value;
      var d := base + Z;
      && r.value.zones == [Zone(d, base + region)] + h.zones
      && r.value.free == [d] + h.free
      && r.value.len == h.len[d := region - Z - H]
      && BlockEnd(d, r.value.len[d]) == base + region
      && r.value.curZoneSize == region
      && r.value.used == h.used
  {
    match answer
    case None => None
    case Some(base) =>
      var d := base + Z;
      Some(Heap([Zone(d, base + region)] + h.zones, region, [d] + h.free,
                h.len[d := region - Z - H], h.used))
  }

  /** The result of one sa_alloc call: the new state, the returned pointer
      (`None` for NULL), and the final values of the call's `merged` and
      `realloced` flags. */
  datatype Outcome = Outcome(heap: Heap, ptr: Option<nat>, merged: bool, realloced: bool)

  /** Hand out the entry at position `i` and return its data pointer. */
  function Take(h: Heap, i: nat, n: nat, merged: bool, realloced: bool): (r: Outcome)
    requires Tracked(h.len, h.free) && i < |h.free| && h.len[h.free[i]] >= n
    ensures r.ptr.Some? && r.ptr.value == Data(h.free[i]) && r.ptr.value - H == h.free[i]
    ensures r.heap.used == [r.ptr.value - H] + h.used
    ensures r.ptr.value - H in r.heap.len && r.heap.len[r.ptr.value - H] >= n
    ensures r.heap.zones == h.zones && r.heap.curZoneSize == h.curZoneSize
    ensures r.merged == merged && r.realloced == realloced
  {
    var node := h.free[i];
    var h' := Use(h, i, n);
    Outcome(h'.(used := [node] + h'.used), Some(Data(node)), merged, realloced)
  }

  /** The retry ladder from the `again` label of sa_alloc: search; on a
      miss coalesce once and retry; on a second miss grow once and retry;
      otherwise fail. */
  function Again(h: Heap, n: nat, mmap: Mmap, merged: bool, realloced: bool): (r: Outcome)
    requires Tracked(h.len, h.free) && h.curZoneSize >= InitialSize
    requires !merged ==> Distinct(h.free)
    requires realloced ==> merged
    decreases (if merged then 0 else 2) + (if realloced then 0 else 1)
    ensures merged ==> r.merged
    ensures realloced ==> r.realloced
    ensures r.realloced ==> r.merged
  {
    match FindRight(h, n)
    case Some(s) => Take(h, s.index, n, merged, realloced)
    case None =>
      if !merged then
        Again(DoFreelistMerge(h), n, mmap, true, realloced)
      else if !realloced then
        var want := GrowthTarget(n, h.curZoneSize);
        match Grow(h, want, mmap(h.zones, want))
        case None => Outcome(h, None, merged, realloced)
        case Some(h2) => Again(h2.(curZoneSize := want), n, mmap, merged, true)
      else
        Outcome(h, None, merged, realloced)
  }

  /** A non-NULL result is the data pointer of a block of at least `n`
      bytes, now at the head of the handed-out blocks of the state `h`
      had become. */
  predicate HandsOut(h: Heap, r: Outcome, n: nat)
  {
    r.ptr.Some? ==>
      && r.ptr.value >= H
      && r.heap.used == [r.ptr.value - H] + h.used
      && r.ptr.value - H in r.heap.len
      && r.heap.len[r.ptr.value - H] >= n
  }

  /** A hit of the ladder hands out the data pointer of a block of at
      least `n` bytes and records the block as handed out. */
  lemma {:induction false} AgainHit(h: Heap, n: nat, mmap: Mmap, merged: bool, realloced: bool)
    requires Tracked(h.len, h.free) && h.curZoneSize >= InitialSize
    requires !merged ==> Distinct(h.free)
    requires realloced ==> merged
    decreases (if merged then 0 else 2) + (if realloced then 0 else 1)
    ensures HandsOut(h, Again(h, n, mmap, merged, realloced), n)
  {
    var r := Again(h, n, mmap, merged, realloced);
    match FindRight(h, n)
    case Some(s) =>
      assert r == Take(h, s.index, n, merged, realloced);
    case None =>
      if !merged {
        var h1 := DoFreelistMerge(h);
        assert r == Again(h1, n, mmap, true, realloced);
        AgainHit(h1, n, mmap, true, realloced);
      } else if !realloced {
        var want := GrowthTarget(n, h.curZoneSize);
        match Grow(h, want, mmap(h.zones, want))
        case None =>
          assert r == Outcome(h, None, merged, realloced);
        case Some(h2) =>
          var h3 := h2.(curZoneSize := want);
          assert r == Again(h3, n, mmap, merged, true);
          AgainHit(h3, n, mmap, merged, true);
      } else {
        assert r == Outcome(h, None, merged, realloced);
      }
  }

  /** The shape of the ladder: its flags only go up, a miss happens only
      after coalescing and after the growth mapping failed or the grown
      zone did not fit, at most one zone is added, and cur_zone_sz never
      shrinks. */
  lemma {:induction false} AgainLadder(h: Heap, n: nat, mmap: Mmap, merged: bool, realloced: bool)
    requires Tracked(h.len, h.free) && h.curZoneSize >= InitialSize
    requires !merged ==> Distinct(h.free)
    requires realloced ==> merged
    decreases (if merged then 0 else 2) + (if realloced then 0 else 1)
    ensures var r := Again(h, n, mmap, merged, realloced);
      && (r.realloced ==> r.merged)
      && (merged ==> r.merged)
      && (realloced ==> r.realloced)
      && (r.ptr.None? ==> r.heap.used == h.used && r.merged)
      && (r.ptr.None? && !r.realloced ==> mmap(r.heap.zones, GrowthTarget(n, r.heap.curZoneSize)).None?)
      && |r.heap.zones| <= |h.zones| + (if realloced then 0 else 1)
      && (r.realloced && !realloced ==> |r.heap.zones| == |h.zones| + 1)
      && r.heap.curZoneSize >= h.curZoneSize
  {
    var r := Again(h, n, mmap, merged, realloced);
    match FindRight(h, n)
    case Some(s) =>
      assert r == Take(h, s.index, n, merged, realloced);
    case None =>
      if !merged {
        var h1 := DoFreelistMerge(h);
        assert r == Again(h1, n, mmap, true, realloced);
        AgainLadder(h1, n, mmap, true, realloced);
      } else if !realloced {
        var want := GrowthTarget(n, h.curZoneSize);
        match Grow(h, want, mmap(h.zones, want))
        case None =>
          assert r == Outcome(h, None, merged, realloced);
        case Some(h2) =>
          var h3 := h2.(curZoneSize := want);
          assert r == Again(h3, n, mmap, merged, true);
          AgainLadder(h3, n, mmap, merged, true);
      } else {
        assert r == Outcome(h, None, merged, realloced);
      }
  }

  /** The lazy first mapping of sa_alloc: with no zone yet, map the
      initial zone; `None` when that mapping fails. */
  function LazyInit(h: Heap, mmap: Mmap): (r: Option<Heap>)
    requires Tracked(h.len, h.free) && Distinct(h.free) && Sized(h)
    ensures r.None? <==> |h.zones| == 0 && mmap(h.zones, InitialSize).None?
    ensures |h.zones| > 0 ==> r == Some(h)
    ensures r.Some? ==>
      && Tracked(r.value.len, r.value.free) && Distinct(r.value.free)
      && r.value.curZoneSize >= InitialSize
      && r.value.curZoneSize >= h.curZoneSize
      && r.value.used == h.used
      && 0 < |r.value.zones| <= |h.zones| + 1
    ensures |h.zones| == 0 && r.Some? ==>
      var z := r.value.zones[0];
      && r.value.zones == [z]
      && z.start == mmap(h.zones, InitialSize).value + Z
      && z.end - z.start == InitialSize - Z
      && r.value.curZoneSize == InitialSize
      && r.value.free == [z.start] + h.free
      && r.value.len == h.len[z.start := InitialSize - Z - H]
  {
    if |h.zones| == 0 then Grow(h, InitialSize, mmap(h.zones, InitialSize)) else Some(h)
  }

  /** sa_alloc. A zero-byte request returns NULL and changes nothing. The
      first request maps the initial zone. A non-NULL result is the data
      pointer of a block of at least `n` bytes, now recorded as handed
      out; a NULL result hands nothing out. */
  function Alloc(h: Heap, n: nat, mmap: Mmap): (r: Outcome)
    requires Tracked(h.len, h.free) && Distinct(h.free) && Sized(h)
    ensures n == 0 ==> r == Outcome(h, None, false, false)
    ensures r.ptr.Some? ==> n > 0
    ensures HandsOut(h, r, n)
    ensures r.ptr.None? ==> r.heap.used == h.used
  {
    if n == 0 then Outcome(h, None, false, false)
    else
      match LazyInit(h, mmap)
      case None => Outcome(h, None, false, false)
      case Some(h0) =>
        AgainHit(h0, n, mmap, false, false);
        Again(h0, n, mmap, false, false)
  }

  /** The bounded retries of sa_alloc: at most one coalescing pass and one
      growth per call (`realloced` implies `merged`, and at most one zone
      beyond the lazy initial one is mapped); once a zone exists a NULL
      result for a positive request comes only after coalescing, and
      without growth only when the growth mapping failed; a NULL result
      with no zone means the initial mapping failed and nothing changed;
      and cur_zone_sz never decreases. */
  lemma AllocRetries(h: Heap, n: nat, mmap: Mmap)
    requires Tracked(h.len, h.free) && Distinct(h.free) && Sized(h)
    ensures var r := Alloc(h, n, mmap);
      && (r.realloced ==> r.merged)
      && (r.ptr.None? && n > 0 && |r.heap.zones| > 0 ==> r.merged)
      && (r.ptr.None? && n > 0 && |r.heap.zones| == 0 ==> r.heap == h && mmap(h.zones, InitialSize).None?)
      && (r.ptr.None? && r.merged && !r.realloced ==>
            mmap(r.heap.zones, GrowthTarget(n, r.heap.curZoneSize)).None?)
      && |r.heap.zones| <= |h.zones| + (if |h.zones| == 0 then 2 else 1)
      && r.heap.curZoneSize >= h.curZoneSize
  {
    if n > 0 {
      match LazyInit(h, mmap)
      case None =>
        assert Alloc(h, n, mmap) == Outcome(h, None, false, false);
      case Some(h0) =>
        assert Alloc(h, n, mmap) == Again(h0, n, mmap, false, false);
        AgainLadder(h0, n, mmap, false, false);
    }
  }

  /** The pointer `ptr` may be released: NULL, or the data pointer of a
      block handed out and not yet released. */
  predicate Releasable(h: Heap, ptr: Option<nat>)
  {
    ptr.Some? ==> ptr.value >= H && ptr.value - H in h.used
  }

  /** sa_free: NULL is a no-op; otherwise the descriptor right before the
      data is pushed onto the free-list head with its length unchanged. */
  function Free(h: Heap, ptr: Option<nat>): (h': Heap)
    requires Releasable(h, ptr)
    ensures ptr.None? ==> h' == h
    ensures ptr.Some? ==>
      var d := ptr.value - H;
      && h'.free == [d] + h.free
      && h'.len == h.len
      && h'.zones == h.zones && h'.curZoneSize == h.curZoneSize
      && |h'.used| == |h.used| - 1
      && (Distinct(h.used) ==> forall a :: a in h'.used <==> a in h.used && a != d)
  {
    match ptr
    case None => h
    case Some(p) =>
      var d := p - H;
      var i := Pos(h.used, d);
      RemoveAtElements(h.used, i);
      RemoveAtDistinct(h.used, i);
      h.(free := [d] + h.free, used := RemoveAt(h.used, i))
  }
}
