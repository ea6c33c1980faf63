/** The coalescing pass: every free-list entry, in list order, absorbs
    its physical successors while they are free and in the same zone. */
module Coalesce {
  import opened Layout
  import opened Seqs
  import opened Zones
  import opened Arena
  import opened FreeList

  /** The entry at `a` has nothing left to absorb: the address right after
      its block is in another zone (or past the zone end) or is not on the
      free list. */
  predicate Settled(h: Heap, a: nat)
    requires a in h.len
  {
    var next := BlockEnd(a, h.len[a]);
    !(WithinSameZone(h.zones, a, next) && next in h.free)
  }

  /** The inner loop of do_freelist_merge for one leader. `p` is the block
      absorbed last (initially the leader itself); its end coincides with
      the leader's end, so the next candidate is the leader's successor. */
  function MergeRun(h: Heap, leader: nat, p: nat): (h': Heap)
    requires Tracked(h.len, h.free) && Distinct(h.free)
    requires leader in h.free && p in h.len
    requires BlockEnd(p, h.len[p]) == BlockEnd(leader, h.len[leader])
    decreases |h.free|
    ensures h'.zones == h.zones && h'.curZoneSize == h.curZoneSize && h'.used == h.used
    ensures Tracked(h'.len, h'.free) && Distinct(h'.free)
    ensures h'.len.Keys == h.len.Keys
    ensures leader in h'.free
    ensures |h'.free| <= |h.free|
    ensures |h'.free| - Pos(h'.free, leader) <= |h.free| - Pos(h.free, leader)
  {
    var next := BlockEnd(p, h.len[p]);
    if WithinSameZone(h.zones, leader, next) then
      match OnFreelist(h.free, next)
      case None => h
      case Some(s) =>
        MergeStep(h, leader, s.index);
        MergeRun(Merge(h, leader, s.index), leader, next)
    else h
  }

  /** What one leader's run achieves: only the leader's length changes,
      and it only grows; entries are only removed, never added or
      reordered; the bytes on the free list are conserved; and the leader
      ends settled. */
  lemma {:induction false} MergeRunFacts(h: Heap, leader: nat, p: nat)
    requires Tracked(h.len, h.free) && Distinct(h.free)
    requires leader in h.free && p in h.len
    requires BlockEnd(p, h.len[p]) == BlockEnd(leader, h.len[leader])
    decreases |h.free|
    ensures var h' := MergeRun(h, leader, p);
      && (forall a :: a in h.len && a != leader ==> h'.len[a] == h.len[a])
      && h'.len[leader] >= h.len[leader]
      && (forall a :: a in h'.free ==> a in h.free)
      && (forall a :: a in h'.free[..Pos(h'.free, leader)] ==> a in h.free[..Pos(h.free, leader)])
      && Span(h'.len, h'.free) == Span(h.len, h.free)
      && Settled(h', leader)
  {
    var next := BlockEnd(p, h.len[p]);
    if WithinSameZone(h.zones, leader, next) && next in h.free {
      var j := Pos(h.free, next);
      MergeStep(h, leader, j);
      MergeRunFacts(Merge(h, leader, j), leader, next);
    }
  }

  /** One merge keeps the list duplicate-free and the leader on it, never
      moves the leader further from the list end, and keeps the entries
      before the leader before it. */
  lemma MergeStep(h: Heap, leader: nat, j: nat)
    requires Tracked(h.len, h.free) && Distinct(h.free)
    requires leader in h.free && j < |h.free| && h.free[j] != leader
    ensures var h1 := Merge(h, leader, j);
      && Distinct(h1.free)
      && leader in h1.free
      && (forall a :: a in h1.free ==> a in h.free)
      && |h1.free| - Pos(h1.free, leader) <= |h.free| - Pos(h.free, leader)
      && (forall a :: a in h1.free[..Pos(h1.free, leader)] ==> a in h.free[..Pos(h.free, leader)])
  {
    RemoveAtPos(h.free, j, leader);
    RemoveAtDistinct(h.free, j);
    RemoveAtElements(h.free, j);
  }

  /** Entries before `leader` (all entries, when there is no leader left)
      are settled. */
  ghost predicate DoneBefore(h: Heap, leader: Option<nat>)
    requires Tracked(h.len, h.free)
    requires leader.Some? ==> leader.value in h.free
  {
    match leader
    case Some(l) => forall a :: a in h.free[..Pos(h.free, l)] ==> Settled(h, a)
    case None => forall a :: a in h.free ==> Settled(h, a)
  }

  /** The entry that follows `a` in the list, if any. */
  function NextEntry(free: seq<nat>, a: nat): (r: Option<nat>)
    requires a in free
    ensures r.Some? ==> r.value in free
  {
    var k := Pos(free, a);
    if k + 1 < |free| then Some(free[k + 1]) else None
  }

  /** The outer loop of do_freelist_merge, from `leader` to the list end:
      each leader runs, then the walk moves to the entry after it. */
  function MergePass(h: Heap, leader: Option<nat>): (h': Heap)
    requires Tracked(h.len, h.free) && Distinct(h.free)
    requires leader.Some? ==> leader.value in h.free
    decreases if leader.Some? then |h.free| - Pos(h.free, leader.value) else 0
    ensures h'.zones == h.zones && h'.curZoneSize == h.curZoneSize && h'.used == h.used
    ensures Tracked(h'.len, h'.free) && Distinct(h'.free)
    ensures h'.len.Keys == h.len.Keys
    ensures |h'.free| <= |h.free|
  {
    match leader
    case None => h
    case Some(l) =>
      var h1 := MergeRun(h, l, l);
      PosOfNext(h1.free, l);
      MergePass(h1, NextEntry(h1.free, l))
  }

  lemma PosOfNext(free: seq<nat>, a: nat)
    requires Distinct(free) && a in free
    ensures NextEntry(free, a).Some? ==> Pos(free, NextEntry(free, a).value) == Pos(free, a) + 1
    ensures NextEntry(free, a).None? ==> Pos(free, a) + 1 == |free|
  {
    var k := Pos(free, a);
    if k + 1 < |free| {
      PosOfDistinct(free, k + 1);
    }
  }

  /** An entry stays settled when its length and the zones are unchanged
      and the free list only lost entries. */
  lemma SettledKept(h: Heap, h1: Heap, a: nat)
    requires a in h.len && a in h1.len && h1.len[a] == h.len[a] && h1.zones == h.zones
    requires forall b :: b in h1.free ==> b in h.free
    requires Settled(h, a)
    ensures Settled(h1, a)
  {
  }

  /** After one leader's run, every entry up to and including the leader
      is settled. */
  lemma DoneAfterRun(h: Heap, l: nat)
    requires Tracked(h.len, h.free) && Distinct(h.free) && l in h.free
    requires DoneBefore(h, Some(l))
    ensures var h1 := MergeRun(h, l, l);
      DoneBefore(h1, NextEntry(h1.free, l))
  {
    var h1 := MergeRun(h, l, l);
    MergeRunFacts(h, l, l);
    var k := Pos(h.free, l);
    var k1 := Pos(h1.free, l);
    assert Settled(h1, l);
    forall a | a in h1.free[..k1 + 1]
      ensures Settled(h1, a)
    {
      if a != l {
        var m :| 0 <= m < k1 + 1 && h1.free[..k1 + 1][m] == a;
        assert m < k1;
        assert a in h1.free[..k1];
        assert a in h.free[..k];
        SettledKept(h, h1, a);
      }
    }
    PosOfNext(h1.free, l);
    if NextEntry(h1.free, l).None? {
      assert h1.free[..k1 + 1] == h1.free;
    }
  }

  /** What the pass achieves from `leader` on: only free-list entries
      change length, entries are only removed, the bytes on the free list
      are conserved, and once the entries before `leader` are settled,
      every surviving entry is. */
  lemma {:induction false} MergePassFacts(h: Heap, leader: Option<nat>)
    requires Tracked(h.len, h.free) && Distinct(h.free)
    requires leader.Some? ==> leader.value in h.free
    decreases if leader.Some? then |h.free| - Pos(h.free, leader.value) else 0
    ensures var h' := MergePass(h, leader);
      && (forall a :: a in h.len && a !in h.free ==> h'.len[a] == h.len[a])
      && (forall a :: a in h'.free ==> a in h.free)
      && Span(h'.len, h'.free) == Span(h.len, h.free)
      && (DoneBefore(h, leader) ==> forall a :: a in h'.free ==> Settled(h', a))
  {
    if leader.Some? {
      var l := leader.value;
      var h1 := MergeRun(h, l, l);
      MergeRunFacts(h, l, l);
      PosOfNext(h1.free, l);
      if DoneBefore(h, leader) {
        DoneAfterRun(h, l);
      }
      MergePassFacts(h1, NextEntry(h1.free, l));
    }
  }

  /** do_freelist_merge: one pass over the free list from its head. */
  function DoFreelistMerge(h: Heap): (h': Heap)
    requires Tracked(h.len, h.free) && Distinct(h.free)
    ensures h'.zones == h.zones && h'.curZoneSize == h.curZoneSize && h'.used == h.used
    ensures Tracked(h'.len, h'.free) && Distinct(h'.free)
  {
    MergePass(h, if |h.free| == 0 then None else Some(h.free[0]))
  }

  /** What the pass achieves: it conserves the bytes on the free list,
      never lengthens the list, leaves blocks off the list alone, and
      leaves no entry that could still absorb its successor. */
  lemma CoalesceFacts(h: Heap)
    requires Tracked(h.len, h.free) && Distinct(h.free)
    ensures var h' := DoFreelistMerge(h);
      && h'.len.Keys == h.len.Keys
      && (forall a :: a in h.len && a !in h.free ==> h'.len[a] == h.len[a])
      && (forall a :: a in h'.free ==> a in h.free)
      && |h'.free| <= |h.free|
      && Span(h'.len, h'.free) == Span(h.len, h.free)
      && (forall a :: a in h'.free ==> Settled(h', a))
  {
    MergePassFacts(h, if |h.free| == 0 then None else Some(h.free[0]));
  }
}
