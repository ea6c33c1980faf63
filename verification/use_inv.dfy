/** Handing out a free-list entry keeps the allocator invariant: a split
    cuts the entry's block into two adjacent blocks inside it, and a
    consumed entry simply moves from the free list to the handed-out ones. */
module UseInv {
  import opened Layout
  import opened Seqs
  import opened Zones
  import opened Arena
  import opened FreeList
  import opened Allocator

  /** No owned block other than `node` starts inside `node`'s block. */
  lemma NothingStartsInside(h: Heap, node: nat, x: nat)
    requires Inv(h) && Owned(h, node)
    requires node < x < BlockEnd(node, h.len[node])
    ensures !Owned(h, x)
  {
    forall a | Owned(h, a) && a != node
      ensures a != x
    {
      assert Separate(h.len, a, node);
    }
  }

  /** Replacing entry `i` by an address listed nowhere else. */
  lemma ReplaceAtDistinct(s: seq<nat>, i: nat, x: nat)
    requires Distinct(s) && i < |s|
    requires forall k :: 0 <= k < |s| && k != i ==> s[k] != x
    ensures Distinct(s[..i] + [x] + s[i + 1..])
    ensures s[i] !in s[..i] + s[i + 1..]
  {
    var r := s[..i] + [x] + s[i + 1..];
    assert forall k :: 0 <= k < |r| && k != i ==> r[k] == s[k];
  }

  /** The state after a split, spelled out. */
  lemma SplitShape(h: Heap, i: nat, n: nat)
    requires Inv(h) && i < |h.free| && h.len[h.free[i]] >= n
    requires SplitWorthy(h.len[h.free[i]], n)
    ensures var node := h.free[i];
      var tail := Data(node) + n;
      var h' := Take(h, i, n, false, false).heap;
      && h'.free == h.free[..i] + [tail] + h.free[i + 1..]
      && h'.used == [node] + h.used
      && h'.zones == h.zones && h'.curZoneSize == h.curZoneSize
      && h'.len == h.len[tail := h.len[node] - n - H][node := n]
      && Owned(h, node) && node !in h.used
      && tail != node && !Owned(h, tail)
  {
    var node := h.free[i];
    assert Owned(h, node);
    NothingStartsInside(h, node, Data(node) + n);
  }

  lemma SplitBooks(h: Heap, i: nat, n: nat)
    requires Inv(h) && i < |h.free| && h.len[h.free[i]] >= n
    requires SplitWorthy(h.len[h.free[i]], n)
    ensures Books(Take(h, i, n, false, false).heap)
  {
    var node := h.free[i];
    var tail := Data(node) + n;
    var h' := Take(h, i, n, false, false).heap;
    SplitShape(h, i, n);
    forall k | 0 <= k < |h.free| && k != i
      ensures h.free[k] != tail
    {
      assert Owned(h, h.free[k]);
    }
    ReplaceAtDistinct(h.free, i, tail);
    PushDistinct(node, h.used);
    forall a | a in h'.free
      ensures a !in h'.used
    {
      var k :| 0 <= k < |h'.free| && h'.free[k] == a;
      if k != i {
        assert a == h.free[k];
      }
    }
  }

  lemma SplitTiled(h: Heap, i: nat, n: nat)
    requires Inv(h) && i < |h.free| && h.len[h.free[i]] >= n
    requires SplitWorthy(h.len[h.free[i]], n)
    requires Books(Take(h, i, n, false, false).heap)
    ensures Tiled(Take(h, i, n, false, false).heap)
  {
    var node := h.free[i];
    var L := h.len[node];
    var tail := Data(node) + n;
    var h' := Take(h, i, n, false, false).heap;
    SplitShape(h, i, n);
    forall a | Owned(h', a)
      ensures Owned(h, a) || a == tail
    {
      if a in h'.free {
        var k :| 0 <= k < |h'.free| && h'.free[k] == a;
        if k != i {
          assert a == h.free[k];
        }
      }
    }
    assert BlockEnd(node, h'.len[node]) == tail;
    assert BlockEnd(tail, h'.len[tail]) == BlockEnd(node, L);
    assert Placed(h, node);
    var zi :| 0 <= zi < |h.zones| && h.zones[zi].start <= node && BlockEnd(node, L) <= h.zones[zi].end;
    forall a | Owned(h', a)
      ensures Placed(h', a)
    {
      if a == node || a == tail {
        assert h'.zones[zi].start <= a && BlockEnd(a, h'.len[a]) <= h'.zones[zi].end;
      } else {
        assert Placed(h, a);
        assert h'.len[a] == h.len[a];
      }
    }
    forall a, b | Owned(h', a) && Owned(h', b) && a != b
      ensures Separate(h'.len, a, b)
    {
      if a != node && a != tail && b != node && b != tail {
        assert Separate(h.len, a, b);
      } else if a != node && a != tail {
        assert Separate(h.len, a, node);
      } else if b != node && b != tail {
        assert Separate(h.len, b, node);
      }
    }
  }

  /** The byte count of a split: the entry at `i` becomes the handed-out
      block of `n` bytes plus a tail entry taking its place, and neither
      address is listed elsewhere. */
  lemma SplitSpan(len: map<nat, nat>, free: seq<nat>, used: seq<nat>, i: nat, n: nat, tail: nat)
    requires Tracked(len, free) && Tracked(len, used) && i < |free|
    requires len[free[i]] >= n + H && tail != free[i]
    requires forall a :: a in RemoveAt(free, i) ==> a != free[i] && a != tail
    requires forall a :: a in used ==> a != free[i] && a != tail
    ensures var node := free[i];
      var len' := len[tail := len[node] - n - H][node := n];
      var free' := free[..i] + [tail] + free[i + 1..];
      && Tracked(len', free') && Tracked(len', [node] + used)
      && Span(len', free') + Span(len', [node] + used) == Span(len, free) + Span(len, used)
  {
    var node := free[i];
    var len' := len[tail := len[node] - n - H][node := n];
    var rest := RemoveAt(free, i);
    var after := free[i + 1..];
    SpanAgree(len, len', rest);
    SpanAgree(len, len', used);
    SpanRemoveAt(len, free, i);
    assert forall a :: a in after ==> a in rest;
    SpanConcat(len', free[..i], [tail] + after);
    SpanConcat(len', free[..i], after);
    assert free[..i] + [tail] + after == free[..i] + ([tail] + after);
    assert ([tail] + after)[1..] == after;
    assert ([node] + used)[1..] == used;
  }

  lemma SplitAccounted(h: Heap, i: nat, n: nat)
    requires Inv(h) && i < |h.free| && h.len[h.free[i]] >= n
    requires SplitWorthy(h.len[h.free[i]], n)
    requires Books(Take(h, i, n, false, false).heap)
    ensures Accounted(Take(h, i, n, false, false).heap)
  {
    var node := h.free[i];
    var tail := Data(node) + n;
    SplitShape(h, i, n);
    RemoveAtElements(h.free, i);
    forall a | a in RemoveAt(h.free, i)
      ensures a != node && a != tail
    {
      assert Owned(h, a);
    }
    forall a | a in h.used
      ensures a != node && a != tail
    {
      assert Owned(h, a);
    }
    SplitSpan(h.len, h.free, h.used, i, n, tail);
  }

  lemma SplitKeepsInv(h: Heap, i: nat, n: nat)
    requires Inv(h) && i < |h.free| && h.len[h.free[i]] >= n
    requires SplitWorthy(h.len[h.free[i]], n)
    ensures Inv(Take(h, i, n, false, false).heap)
  {
    SplitShape(h, i, n);
    SplitBooks(h, i, n);
    SplitTiled(h, i, n);
    SplitAccounted(h, i, n);
  }

  lemma ConsumeKeepsInv(h: Heap, i: nat, n: nat)
    requires Inv(h) && i < |h.free| && h.len[h.free[i]] >= n
    requires !SplitWorthy(h.len[h.free[i]], n)
    ensures Inv(Take(h, i, n, false, false).heap)
  {
    var node := h.free[i];
    var h' := Take(h, i, n, false, false).heap;
    assert h'.free == RemoveAt(h.free, i) && h'.len == h.len && h'.used == [node] + h.used;
    RemoveAtDistinct(h.free, i);
    RemoveAtElements(h.free, i);
    assert node !in h.used;
    PushDistinct(node, h.used);
    assert Books(h');
    assert forall a :: Owned(h', a) <==> Owned(h, a);
    assert Tiled(h');
    SpanRemoveAt(h.len, h.free, i);
    assert Accounted(h');
  }

  /** Handing out any entry that fits keeps the invariant; the flags play
      no part. */
  lemma TakeKeepsInv(h: Heap, i: nat, n: nat, merged: bool, realloced: bool)
    requires Inv(h) && i < |h.free| && h.len[h.free[i]] >= n
    ensures Inv(Take(h, i, n, merged, realloced).heap)
  {
    assert Take(h, i, n, merged, realloced).heap == Take(h, i, n, false, false).heap;
    if SplitWorthy(h.len[h.free[i]], n) {
      SplitKeepsInv(h, i, n);
    } else {
      ConsumeKeepsInv(h, i, n);
    }
  }
}
