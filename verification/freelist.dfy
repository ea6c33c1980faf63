/** The free list: first-fit search, membership, split-or-consume and the
    merge of one block into its leader. */
module FreeList {
  import opened Layout
  import opened Seqs
  import opened Arena

  /** A position in the free list together with its list predecessor
      (`None` for the head), as the `*prev` out-parameter reports it. */
  datatype Slot = Slot(index: nat, prev: Option<nat>)

  /** The list predecessor of position `i`. */
  function Prev(s: seq<nat>, i: nat): Option<nat>
    requires i < |s|
  {
    if i == 0 then None else Some(s[i - 1])
  }

  /** Index of the first entry whose length is at least `n`. */
  function FirstFit(free: seq<nat>, len: map<nat, nat>, n: nat): (r: Option<nat>)
    requires Tracked(len, free)
    ensures r.Some? ==> r.value < |free| && len[free[r.value]] >= n
    ensures r.Some? ==> forall k :: 0 <= k < r.value ==> len[free[k]] < n
    ensures r.None? ==> forall k :: 0 <= k < |free| ==> len[free[k]] < n
  {
    if |free| == 0 then None
    else if len[free[0]] >= n then Some(0)
    else match FirstFit(free[1..], len, n)
      case None => None
      case Some(i) => Some(i + 1)
  }

  /** find_right: the first free-list entry, in list order, whose length
      is at least `n`, with its predecessor; `None` iff there is none. */
  function FindRight(h: Heap, n: nat): (r: Option<Slot>)
    requires Tracked(h.len, h.free)
    ensures r.Some? ==> r.value.index < |h.free| && h.len[h.free[r.value.index]] >= n
    ensures r.Some? ==> forall k :: 0 <= k < r.value.index ==> h.len[h.free[k]] < n
    ensures r.Some? ==> r.value.prev == Prev(h.free, r.value.index)
    ensures r.None? <==> forall k :: 0 <= k < |h.free| ==> h.len[h.free[k]] < n
  {
    match FirstFit(h.free, h.len, n)
    case None => None
    case Some(i) => Some(Slot(i, Prev(h.free, i)))
  }

  /** on_freelist: the first position holding address `p`, with its
      predecessor; `None` iff `p` is not on the list. */
  function OnFreelist(free: seq<nat>, p: nat): (r: Option<Slot>)
    ensures r.Some? <==> p in free
    ensures r.Some? ==> r.value.index < |free| && free[r.value.index] == p
    ensures r.Some? ==> forall k :: 0 <= k < r.value.index ==> free[k] != p
    ensures r.Some? ==> r.value.prev == Prev(free, r.value.index)
  {
    if p in free then
      var i := Pos(free, p);
      Some(Slot(i, Prev(free, i)))
    else None
  }

  /** The split test of `use`: the leftover after taking `n` bytes can hold
      a descriptor and at least one data byte. */
  predicate SplitWorthy(nodeLen: nat, n: nat)
  {
    nodeLen - n >= H + 1
  }

  /** use: hand out the entry at position `i` for a request of `n` bytes.
      A block with enough leftover is split: a new descriptor for the tail
      takes the entry's place in the list and the entry keeps exactly `n`
      bytes. Otherwise the whole entry is unlinked, length unchanged. */
  function Use(h: Heap, i: nat, n: nat): (h': Heap)
    requires Tracked(h.len, h.free) && i < |h.free| && h.len[h.free[i]] >= n
    ensures h'.zones == h.zones && h'.curZoneSize == h.curZoneSize && h'.used == h.used
    ensures SplitWorthy(h.len[h.free[i]], n) ==>
      var node := h.free[i];
      var tail := Data(node) + n;
      && |h'.free| == |h.free|
      && h'.free[i] == tail
      && (forall k :: 0 <= k < |h.free| && k != i ==> h'.free[k] == h.free[k])
      && h'.len.Keys == h.len.Keys + {tail}
      && h'.len[node] == n
      && h'.len[tail] >= 1
      && h'.len[node] + h'.len[tail] + H == h.len[node]
      && (forall a :: a in h.len && a != node && a != tail ==> h'.len[a] == h.len[a])
    ensures !SplitWorthy(h.len[h.free[i]], n) ==>
      h'.free == RemoveAt(h.free, i) && h'.len == h.len
  {
    var node := h.free[i];
    if SplitWorthy(h.len[node], n) then
      var tail := Data(node) + n;
      h.(free := h.free[..i] + [tail] + h.free[i + 1..],
         len := h.len[tail := h.len[node] - n - H][node := n])
    else
      h.(free := RemoveAt(h.free, i))
  }

  /** merge: the leader absorbs the entry at position `j` (its physical
      successor): the leader grows by the entry's length plus its
      descriptor and the entry is unlinked. The bytes on the free list are
      unchanged. */
  function Merge(h: Heap, leader: nat, j: nat): (h': Heap)
    requires Tracked(h.len, h.free) && leader in h.len && j < |h.free|
    ensures h'.zones == h.zones && h'.curZoneSize == h.curZoneSize && h'.used == h.used
    ensures h'.free == RemoveAt(h.free, j)
    ensures h'.len.Keys == h.len.Keys
    ensures h'.len[leader] == h.len[leader] + h.len[h.free[j]] + H
    ensures forall a :: a in h.len && a != leader ==> h'.len[a] == h.len[a]
    ensures Tracked(h'.len, h'.free)
    ensures Distinct(h.free) && leader in h.free && leader != h.free[j] ==>
      Span(h'.len, h'.free) == Span(h.len, h.free)
  {
    RemoveAtElements(h.free, j);
    MergeConserves(h.len, h.free, leader, j);
    h.(len := h.len[leader := h.len[leader] + h.len[h.free[j]] + H],
       free := RemoveAt(h.free, j))
  }

  /** Folding the entry at `j` into another listed entry keeps the bytes
      on the list, headers included. */
  lemma MergeConserves(len: map<nat, nat>, free: seq<nat>, leader: nat, j: nat)
    requires Tracked(len, free) && leader in len && j < |free|
    ensures Distinct(free) && leader in free && leader != free[j] ==>
      Span(len[leader := len[leader] + len[free[j]] + H], RemoveAt(free, j)) == Span(len, free)
  {
    if Distinct(free) && leader in free && leader != free[j] {
      var len' := len[leader := len[leader] + len[free[j]] + H];
      SpanRemoveAt(len, free, j);
      RemoveAtDistinct(free, j);
      RemoveAtElements(free, j);
      SpanUpdate(len, RemoveAt(free, j), leader, len'[leader]);
    }
  }
}
