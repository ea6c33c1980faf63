/** The allocator's process-wide state as one immutable record, and the
    invariant every reachable state satisfies. */
module Arena {
  import opened Layout
  import opened Seqs
  import opened Zones

  /** `zones`: the zone list, most recent first. `curZoneSize`: cur_zone_sz,
      the size of the most recently mapped zone (0 before the first one).
      `free`: the free list as descriptor addresses in list order.
      `len`: the length field of every descriptor ever carved, keyed by its
      address. `used`: descriptors handed out by allocation and not yet
      released; the C code keeps no such record, it names the blocks a
      caller may legitimately release. */
  datatype Heap = Heap(
    zones: seq<Zone>,
    curZoneSize: nat,
    free: seq<nat>,
    len: map<nat, nat>,
    used: seq<nat>)

  /** The state at process start: no zones, an empty free list. */
  const Empty: Heap := Heap([], 0, [], map[], [])

  /** The block at `a` belongs to the allocator's bookkeeping: it is free
      or handed out. */
  predicate Owned(h: Heap, a: nat)
  {
    a in h.free || a in h.used
  }

  /** The block at `a`, descriptor included, lies inside one zone. */
  ghost predicate Placed(h: Heap, a: nat)
    requires a in h.len
  {
    exists i :: 0 <= i < |h.zones| && h.zones[i].start <= a && BlockEnd(a, h.len[a]) <= h.zones[i].end
  }

  /** The blocks at `a` and `b` do not overlap. */
  predicate Separate(len: map<nat, nat>, a: nat, b: nat)
    requires a in len && b in len
  {
    BlockEnd(a, len[a]) <= b || BlockEnd(b, len[b]) <= a
  }

  /** Lists are duplicate-free, every listed descriptor has a length, and
      no block is both free and handed out. */
  predicate Books(h: Heap)
  {
    && Distinct(h.free)
    && Distinct(h.used)
    && Tracked(h.len, h.free)
    && Tracked(h.len, h.used)
    && (forall a :: a in h.free ==> a !in h.used)
  }

  /** Every owned block lies in a zone and no two owned blocks overlap. */
  ghost predicate Tiled(h: Heap)
    requires Books(h)
  {
    && (forall a :: Owned(h, a) ==> Placed(h, a))
    && (forall a, b :: Owned(h, a) && Owned(h, b) && a != b ==> Separate(h.len, a, b))
  }

  /** Free and handed-out blocks together cover exactly the usable bytes
      of the zones: no byte is lost or fabricated. */
  predicate Accounted(h: Heap)
    requires Books(h)
  {
    Span(h.len, h.free) + Span(h.len, h.used) == ZoneSpan(h.zones)
  }

  /** Before the lazy first mapping there is nothing: no blocks and
      cur_zone_sz still 0. Afterwards cur_zone_sz is at least the initial
      size. */
  predicate Sized(h: Heap)
  {
    && (|h.zones| == 0 ==> h.curZoneSize == 0 && h.free == [] && h.used == [])
    && (|h.zones| > 0 ==> h.curZoneSize >= InitialSize)
  }

  ghost predicate Inv(h: Heap)
  {
    && ZonesWf(h.zones)
    && Books(h)
    && Tiled(h)
    && Accounted(h)
    && Sized(h)
  }

  lemma EmptyInv()
    ensures Inv(Empty)
  {
  }
}
