/** The zone manager: mapped regions tracked as address intervals, the
    same-zone test that bounds coalescing, and the growth policy. */
module Zones {
  import opened Layout

  /** One mapped region. The zone header occupies `[start - Z, start)`;
      blocks live in `[start, end)`. */
  datatype Zone = Zone(start: nat, end: nat)

  /** `a` lies in the usable part of zone `z`. */
  predicate Contains(z: Zone, a: nat)
  {
    z.start <= a < z.end
  }

  /** within_same_zone: some zone, walked from the most recent one, holds
      both addresses. */
  function WithinSameZone(zones: seq<Zone>, one: nat, other: nat): (r: bool)
    ensures r <==> exists i :: 0 <= i < |zones| && Contains(zones[i], one) && Contains(zones[i], other)
  {
    if |zones| == 0 then false
    else if Contains(zones[0], one) && Contains(zones[0], other) then true
    else
      var rest := WithinSameZone(zones[1..], one, other);
      assert rest ==> exists i :: 0 <= i < |zones| && Contains(zones[i], one) && Contains(zones[i], other) by {
        if rest {
          var i :| 0 <= i < |zones[1..]| && Contains(zones[1..][i], one) && Contains(zones[1..][i], other);
          assert zones[i + 1] == zones[1..][i];
        }
      }
      assert (exists i :: 0 <= i < |zones| && Contains(zones[i], one) && Contains(zones[i], other)) ==> rest by {
        if i :| 0 <= i < |zones| && Contains(zones[i], one) && Contains(zones[i], other) {
          assert i != 0;
          assert zones[1..][i - 1] == zones[i];
        }
      }
      rest
  }

  /** The two mappings (zone header included) do not overlap. */
  predicate Apart(z: Zone, w: Zone)
  {
    z.end <= w.start - Z || w.end <= z.start - Z
  }

  /** Every zone sits after its header and the mappings are pairwise
      disjoint: zones are never shrunk, unmapped or overlapped. */
  predicate ZonesWf(zones: seq<Zone>)
  {
    && (forall i :: 0 <= i < |zones| ==> Z <= zones[i].start <= zones[i].end)
    && (forall i, j :: 0 <= i < j < |zones| ==> Apart(zones[i], zones[j]))
  }

  /** A region of `region` bytes at `base` overlaps no existing mapping:
      what a successful anonymous mmap guarantees. */
  predicate Fresh(zones: seq<Zone>, base: nat, region: nat)
  {
    forall i :: 0 <= i < |zones| ==> base + region <= zones[i].start - Z || zones[i].end <= base
  }

  /** The operating system's mapping call: given the current zones and a
      size, it yields a base address or fails. */
  type Mmap = (seq<Zone>, nat) -> Option<nat>

  /** Every address the mapping call hands out is fresh. */
  ghost predicate FreshOracle(mmap: Mmap)
  {
    forall zs, region :: mmap(zs, region).Some? ==> Fresh(zs, mmap(zs, region).value, region)
  }

  /** Bytes usable for blocks across all zones. */
  function ZoneSpan(zones: seq<Zone>): int
  {
    if |zones| == 0 then 0 else (zones[0].end - zones[0].start) + ZoneSpan(zones[1..])
  }

  /** Two zones that share an address are the same zone. */
  lemma SharedAddressSameZone(zones: seq<Zone>, i: nat, j: nat, a: nat)
    requires ZonesWf(zones) && i < |zones| && j < |zones|
    requires Contains(zones[i], a) && Contains(zones[j], a)
    ensures i == j
  {
    assert i < j ==> Apart(zones[i], zones[j]);
    assert j < i ==> Apart(zones[j], zones[i]);
  }

  /** The size of the next zone when the free list cannot satisfy a request
      of `region` bytes even after coalescing. A request larger than twice
      the current zone size gets `region + MiB` with the low 20 bits
      cleared (the C mask `~0xfffff` is an int sign-extended to size_t);
      otherwise the zone size doubles. */
  function GrowthTarget(region: nat, cur: nat): (want: nat)
    ensures region > 2 * cur ==> want % MiB == 0 && region < want <= region + MiB
    ensures region <= 2 * cur ==> want == 2 * cur
    ensures want >= 2 * cur
  {
    if region > 2 * cur then (region + MiB) / MiB * MiB else 2 * cur
  }
}
