/** What deferred coalescing buys a caller: blocks released next to each
    other are joined by the pass, so a request their combined bytes can
    hold is served without growing the arena. The argument tracks, for
    every block that was free before the pass, an entry that still covers
    it afterwards, and uses that the pass leaves every entry settled. */
module CoalescingServes {
  import opened Layout
  import opened Seqs
  import opened Zones
  import opened Arena
  import opened FreeList
  import opened Coalesce
  import opened MergeInv
  import opened Allocator
  import opened AllocInv

  /** Some free-list entry starts at or before `x` and its block reaches
      at least to `end`. */
  ghost predicate Covers(h: Heap, x: nat, end: nat)
    requires Tracked(h.len, h.free)
  {
    exists e :: e in h.free && e <= x && end <= BlockEnd(e, h.len[e])
  }

  /** Every block free in `orig` lies inside some entry of `h`. */
  ghost predicate Covered(orig: Heap, h: Heap)
    requires Tracked(orig.len, orig.free) && Tracked(h.len, h.free)
  {
    forall x :: x in orig.free ==> Covers(h, x, BlockEnd(x, orig.len[x]))
  }

  lemma CoveredInitially(h: Heap)
    requires Tracked(h.len, h.free)
    ensures Covered(h, h)
  {
    forall x | x in h.free
      ensures Covers(h, x, BlockEnd(x, h.len[x]))
    {
      assert x in h.free && x <= x;
    }
  }

  /** Absorbing the successor keeps every covered range covered: a range
      the absorbed entry covered is now covered by the grown leader, which
      ends where the absorbed block ended. */
  lemma MergeKeepsCovers(h: Heap, leader: nat, j: nat, x: nat, end: nat)
    requires Tracked(h.len, h.free) && Distinct(h.free)
    requires leader in h.free && j < |h.free| && h.free[j] == BlockEnd(leader, h.len[leader])
    requires Covers(h, x, end)
    ensures Covers(Merge(h, leader, j), x, end)
  {
    var h1 := Merge(h, leader, j);
    var e :| e in h.free && e <= x && end <= BlockEnd(e, h.len[e]);
    MergeStep(h, leader, j);
    RemoveAtElements(h.free, j);
    if e == h.free[j] {
      assert BlockEnd(leader, h1.len[leader]) == BlockEnd(e, h.len[e]);
      assert leader in h1.free && leader <= x;
    } else {
      assert e in h1.free && h1.len[e] >= h.len[e];
    }
  }

  lemma MergeKeepsCovered(orig: Heap, h: Heap, leader: nat, j: nat)
    requires Tracked(orig.len, orig.free)
    requires Tracked(h.len, h.free) && Distinct(h.free)
    requires leader in h.free && j < |h.free| && h.free[j] == BlockEnd(leader, h.len[leader])
    requires Covered(orig, h)
    ensures Covered(orig, Merge(h, leader, j))
  {
    forall x | x in orig.free
      ensures Covers(Merge(h, leader, j), x, BlockEnd(x, orig.len[x]))
    {
      MergeKeepsCovers(h, leader, j, x, BlockEnd(x, orig.len[x]));
    }
  }

  /** One leader's run keeps every block that was free in `orig` covered. */
  lemma {:induction false} RunKeepsCovered(orig: Heap, h: Heap, leader: nat, p: nat)
    requires Tracked(orig.len, orig.free)
    requires Tracked(h.len, h.free) && Distinct(h.free)
    requires leader in h.free && p in h.len
    requires BlockEnd(p, h.len[p]) == BlockEnd(leader, h.len[leader])
    requires Covered(orig, h)
    decreases |h.free|
    ensures Covered(orig, MergeRun(h, leader, p))
  {
    var next := BlockEnd(p, h.len[p]);
    if WithinSameZone(h.zones, leader, next) && next in h.free {
      var j := Pos(h.free, next);
      MergeStep(h, leader, j);
      MergeKeepsCovered(orig, h, leader, j);
      RunKeepsCovered(orig, Merge(h, leader, j), leader, next);
    }
  }

  lemma {:induction false} PassKeepsCovered(orig: Heap, h: Heap, leader: Option<nat>)
    requires Tracked(orig.len, orig.free)
    requires Tracked(h.len, h.free) && Distinct(h.free)
    requires leader.Some? ==> leader.value in h.free
    requires Covered(orig, h)
    decreases if leader.Some? then |h.free| - Pos(h.free, leader.value) else 0
    ensures Covered(orig, MergePass(h, leader))
  {
    if leader.Some? {
      var l := leader.value;
      var h1 := MergeRun(h, l, l);
      RunKeepsCovered(orig, h, l, l);
      PosOfNext(h1.free, l);
      PassKeepsCovered(orig, h1, NextEntry(h1.free, l));
    }
  }

  /** No block is lost by do_freelist_merge: every block free before the
      pass lies inside some entry afterwards. */
  lemma CoalesceCovers(h: Heap)
    requires Tracked(h.len, h.free) && Distinct(h.free)
    ensures Covered(h, DoFreelistMerge(h))
  {
    CoveredInitially(h);
    PassKeepsCovered(h, h, if |h.free| == 0 then None else Some(h.free[0]));
  }

  /** In a reachable state a block and the owned block starting right
      after it lie in the same zone: zones are mapped apart, so no owned
      block of another zone can start where a block ends. */
  lemma AdjacentSameZone(h: Heap, a: nat, b: nat)
    requires Inv(h) && Owned(h, a) && Owned(h, b)
    requires b == BlockEnd(a, h.len[a])
    ensures WithinSameZone(h.zones, a, b)
  {
    assert Placed(h, a) && Placed(h, b);
    var i :| 0 <= i < |h.zones| && h.zones[i].start <= a && BlockEnd(a, h.len[a]) <= h.zones[i].end;
    var k :| 0 <= k < |h.zones| && h.zones[k].start <= b && BlockEnd(b, h.len[b]) <= h.zones[k].end;
    assert i < k ==> Apart(h.zones[i], h.zones[k]);
    assert k < i ==> Apart(h.zones[k], h.zones[i]);
    assert Contains(h.zones[k], a) && Contains(h.zones[k], b);
  }

  /** A settled free entry in a reachable state has no free block right
      after it. */
  lemma SettledHasNoFreeSuccessor(h: Heap, a: nat)
    requires Inv(h) && a in h.free && Settled(h, a)
    ensures BlockEnd(a, h.len[a]) !in h.free
  {
    var next := BlockEnd(a, h.len[a]);
    if next in h.free {
      AdjacentSameZone(h, a, next);
    }
  }

  /** Once every entry is settled, two abutting covered ranges are
      covered by one entry: two distinct covering entries would either
      overlap or abut, and an abutting free pair is not settled. */
  lemma JoinCovers(h: Heap, x: nat, mid: nat, end: nat)
    requires Inv(h) && (forall a :: a in h.free ==> Settled(h, a))
    requires x <= mid < end
    requires Covers(h, x, mid) && Covers(h, mid, end)
    ensures Covers(h, x, end)
  {
    var e1 :| e1 in h.free && e1 <= x && mid <= BlockEnd(e1, h.len[e1]);
    var e2 :| e2 in h.free && e2 <= mid && end <= BlockEnd(e2, h.len[e2]);
    SettledHasNoFreeSuccessor(h, e1);
    assert e1 != e2 ==> Separate(h.len, e1, e2);
    assert e1 == e2;
  }

  /** Consecutive blocks: each one starts where the previous one ends. */
  predicate Consecutive(len: map<nat, nat>, c: seq<nat>)
  {
    forall i :: 0 <= i < |c| - 1 ==> c[i] in len && c[i + 1] == BlockEnd(c[i], len[c[i]])
  }

  /** A run of consecutive blocks ends its total span past its first
      address. */
  lemma {:induction false} ChainEnd(len: map<nat, nat>, c: seq<nat>)
    requires |c| > 0 && Tracked(len, c) && Consecutive(len, c)
    ensures BlockEnd(c[|c| - 1], len[c[|c| - 1]]) == c[0] + Span(len, c)
  {
    if |c| > 1 {
      var t := c[1..];
      assert Consecutive(len, t) by {
        forall i | 0 <= i < |t| - 1
          ensures t[i] in len && t[i + 1] == BlockEnd(t[i], len[t[i]])
        {
          assert t[i] == c[i + 1] && t[i + 1] == c[i + 2];
        }
      }
      ChainEnd(len, t);
      assert t[|t| - 1] == c[|c| - 1];
    }
  }

  /** After the pass, a run of consecutive blocks that were all free
      before it lies inside one entry. */
  lemma {:induction false} ChainCoalesced(orig: Heap, h: Heap, c: seq<nat>)
    requires Tracked(orig.len, orig.free) && Inv(h) && Covered(orig, h)
    requires forall a :: a in h.free ==> Settled(h, a)
    requires |c| > 0 && (forall i :: 0 <= i < |c| ==> c[i] in orig.free)
    requires Consecutive(orig.len, c)
    ensures c[0] <= c[|c| - 1]
    ensures Covers(h, c[0], BlockEnd(c[|c| - 1], orig.len[c[|c| - 1]]))
  {
    var last := c[|c| - 1];
    if |c| > 1 {
      var p := c[..|c| - 1];
      assert Consecutive(orig.len, p) by {
        forall i | 0 <= i < |p| - 1
          ensures p[i] in orig.len && p[i + 1] == BlockEnd(p[i], orig.len[p[i]])
        {
          assert p[i] == c[i] && p[i + 1] == c[i + 1];
        }
      }
      ChainCoalesced(orig, h, p);
      var before := p[|p| - 1];
      assert before == c[|c| - 2];
      assert last == BlockEnd(before, orig.len[before]);
      JoinCovers(h, c[0], last, BlockEnd(last, orig.len[last]));
    }
  }

  /** A request fits the list once a covered range holds it. */
  lemma CoverFits(h: Heap, x: nat, end: nat, n: nat)
    requires Tracked(h.len, h.free) && Covers(h, x, end) && x + H + n <= end
    ensures FindRight(h, n).Some?
  {
    var e :| e in h.free && e <= x && end <= BlockEnd(e, h.len[e]);
    var k :| 0 <= k < |h.free| && h.free[k] == e;
    assert h.len[h.free[k]] >= n;
  }

  /** sa_alloc(n) returns a block without mapping a new zone. */
  predicate ServedInPlace(h: Heap, n: nat, mmap: Mmap)
    requires Tracked(h.len, h.free) && Distinct(h.free) && Sized(h)
  {
    var r := Alloc(h, n, mmap);
    r.ptr.Some? && !r.realloced && |r.heap.zones| == |h.zones|
  }

  /** Coalescing is transparent to callers: when consecutive blocks are
      on the free list of a reachable state, a request their bytes can
      hold (their lengths plus the descriptors between them) succeeds
      without growing the arena, through the coalescing fallback if the
      search misses. */
  lemma ChainServesRequest(h: Heap, c: seq<nat>, n: nat, mmap: Mmap)
    requires Inv(h)
    requires |c| > 0 && (forall i :: 0 <= i < |c| ==> c[i] in h.free)
    requires Consecutive(h.len, c)
    requires 0 < n && n + H <= Span(h.len, c)
    ensures ServedInPlace(h, n, mmap)
  {
    assert |h.zones| > 0;
    assert LazyInit(h, mmap) == Some(h);
    var r := Alloc(h, n, mmap);
    assert r == Again(h, n, mmap, false, false);
    match FindRight(h, n)
    case Some(s) =>
      assert r == Take(h, s.index, n, false, false);
    case None =>
      var h3 := DoFreelistMerge(h);
      assert r == Again(h3, n, mmap, true, false);
      CoalesceKeepsInv(h);
      CoalesceFacts(h);
      CoalesceCovers(h);
      ChainEnd(h.len, c);
      ChainCoalesced(h, h3, c);
      CoverFits(h3, c[0], BlockEnd(c[|c| - 1], h.len[c[|c| - 1]]), n);
      var s3 := FindRight(h3, n).value;
      assert r == Take(h3, s3.index, n, true, false);
  }

  /** Two abutting free blocks serve a request for both lengths plus the
      descriptor between them. */
  lemma PairServesRequest(h: Heap, d1: nat, d2: nat, n: nat, mmap: Mmap)
    requires Inv(h) && d1 in h.free && d2 in h.free
    requires d2 == BlockEnd(d1, h.len[d1])
    requires 0 < n <= h.len[d1] + h.len[d2] + H
    ensures ServedInPlace(h, n, mmap)
  {
    var c := [d1, d2];
    assert Span(h.len, c) == H + h.len[d1] + H + h.len[d2] by {
      assert c[0] == d1 && c[1..] == [d2] && c[1..][0] == d2 && c[1..][1..] == [];
      assert Span(h.len, c[1..]) == H + h.len[d2] + Span(h.len, []);
    }
    ChainServesRequest(h, c, n, mmap);
  }

  /** The two-block case through sa_free: with the block at `d1` on the
      free list (released earlier), releasing the block that starts right
      after it lets a request for both lengths plus one descriptor succeed
      without growing the arena. */
  lemma AdjacentReleaseCoalesces(h: Heap, d1: nat, p2: nat, n: nat, mmap: Mmap)
    requires Inv(h) && d1 in h.free && Releasable(h, Some(p2))
    requires p2 - H == BlockEnd(d1, h.len[d1])
    requires 0 < n <= h.len[d1] + h.len[p2 - H] + H
    ensures Inv(Free(h, Some(p2)))
    ensures ServedInPlace(Free(h, Some(p2)), n, mmap)
  {
    FreeKeepsInv(h, Some(p2));
    var h2 := Free(h, Some(p2));
    assert h2.free == [p2 - H] + h.free && h2.len == h.len;
    PairServesRequest(h2, d1, p2 - H, n, mmap);
  }
}
