# simpleallocator in Dafny

A model of `simpleallocator.c`, a small single-threaded first-fit heap
allocator written to teach heap-corruption techniques. The allocator takes
memory from the OS in zones (mmap-ed regions, each headed by a zone
record). It keeps every block's descriptor in-band, right before the data:
`data == descriptor + sizeof(sa_freelist_t)`. Free blocks are chained on an
intrusive LIFO free list. The model follows the C code's five parts:

- **Zone manager** (`zones.dfy`, `Allocator.Grow`). Zones are address
  intervals, `within_same_zone` is interval membership, and
  `grow_avail_mem` prepends a zone and one descriptor that spans it.
- **Free list** (`freelist.dfy`). This holds `find_right` (first fit,
  with the predecessor), `on_freelist`, `use` (split or consume) and
  `merge`.
- **Coalescing pass** (`coalesce.dfy`). `do_freelist_merge` walks every
  leader in list order. Each leader absorbs its physical successors while
  they are free and in its zone.
- **Allocation engine** (`allocator.dfy`). `sa_alloc` does the lazy first
  mapping, then runs the `again:` ladder: search, coalesce once, grow
  once, fail.
- **Release** (`Allocator.Free`). `sa_free` pushes the descriptor at
  `ptr - H` onto the list head.

`coalescing_serves.dfy` states what the deferred coalescing gives a caller.
Consecutive free blocks are joined by the pass, so a request their
combined bytes can hold succeeds without growing the arena. The proof
tracks, for every block free before the pass, an entry that still covers
it afterwards.

The whole allocator state is one immutable record
`Heap(zones, curZoneSize, free, len, used)`:

- `zones`: the zone list, most recent first;
- `curZoneSize`: `cur_zone_sz`;
- `free`: the free list as descriptor addresses, in list order;
- `len`: the `len` field of every descriptor ever carved;
- `used`: the blocks handed out and not yet released.

The C code keeps no record of handed-out blocks. `used` exists in the model
so that two things can be stated: which pointers `sa_free` may receive, and
an invariant that covers allocated blocks too. Addresses and sizes are
`nat`. The header sizes are `H = sizeof(sa_freelist_t) = 24` and
`Z = sizeof(sa_zone_t) = 24` (three 8-byte words each on LP64).
`INITIAL_SIZE` is 102400. The `mmap` call is a parameter
`Mmap = (zones, region) -> Option<base>`. Invariant proofs assume it only
returns regions that are fresh: at least a zone header away from every
existing zone (`FreshOracle`).

Each transition is a pure function, and the invariant `Arena.Inv` is
proved preserved by every one of them. `Inv` says five things:

- every zone starts at least a zone header into its mapping, and the
  mappings, headers included, are pairwise apart;
- the free and handed-out lists are duplicate-free and disjoint;
- every owned block lies inside one zone and no two overlap;
- free plus handed-out bytes, headers included, add up exactly to the
  zones' usable bytes;
- `cur_zone_sz` is 0 before the first mapping and at least
  `INITIAL_SIZE` after.

A request above twice `cur_zone_sz` takes the 1 MiB rounding path, and
one might expect the retry after growth to succeed. The code does not
guarantee that: the grown block is only `want - Z - H` bytes long. `Growth.GrowthFits` states exactly when
the grown block fits, and `Growth.GrowthMayNotFit` exhibits a request for
which `sa_alloc` returns NULL after a successful growth.

## Model

| member | source | states |
|---|---|---|
| Zones.WithinSameZone | simpleallocator.c:56-66 | true iff some zone contains both addresses, start inclusive and end exclusive |
| Zones.GrowthTarget | simpleallocator.c:243-247 | a request above twice cur_zone_sz gets a multiple of 1 MiB in (request, request + 1 MiB]; otherwise exactly twice cur_zone_sz; never below twice cur_zone_sz |
| Zones.SharedAddressSameZone | simpleallocator.c:56-66 | in well-formed zones, two zones holding the same address are the same zone |
| FreeList.FirstFit | simpleallocator.c:163-171 | the index of the first entry with len >= n; every earlier entry is shorter; None iff every entry is shorter |
| FreeList.FindRight | simpleallocator.c:157-173 | returns the first entry in list order with len >= n, with its list predecessor (None for the head); every earlier entry has len < n; None iff no entry qualifies |
| FreeList.OnFreelist | simpleallocator.c:68-82 | Some iff the address is on the list; the slot holds it, no earlier slot does, and prev is its predecessor |
| FreeList.Use | simpleallocator.c:127-155 | split branch: a tail descriptor of len L - n - H >= 1 at data + n takes the node's list position, the node keeps exactly n, the bytes add up, other lengths and entries are unchanged; consume branch: the node is unlinked, the order of the rest and all lengths are kept |
| FreeList.Merge | simpleallocator.c:175-186 | the leader grows by the absorbed length plus H; the absorbed entry is unlinked; the list bytes are conserved |
| Coalesce.MergeRun | simpleallocator.c:196-213 | one leader's inner loop keeps the zones, cur_zone_sz and handed-out blocks; it only shortens the list and keeps the leader on it |
| Coalesce.MergeRunFacts | simpleallocator.c:196-213 | only the leader's length changes, and only grows; entries are only removed; list bytes are conserved; the leader ends with no free same-zone successor |
| Coalesce.MergeStep | simpleallocator.c:175-186 | one merge keeps the list duplicate-free and keeps the entries before the leader before it |
| Coalesce.DoneAfterRun | simpleallocator.c:194-215 | after a leader's run, every entry up to and including it is settled |
| Coalesce.MergePass | simpleallocator.c:192-215 | the outer loop keeps zones, cur_zone_sz and handed-out blocks, and never lengthens the list |
| Coalesce.MergePassFacts | simpleallocator.c:192-215 | off-list blocks keep their lengths, entries are only removed, list bytes are conserved, and every surviving entry is settled |
| Coalesce.DoFreelistMerge | simpleallocator.c:188-216 | the pass keeps zones, cur_zone_sz and handed-out blocks, and leaves a duplicate-free list with every length known |
| Coalesce.CoalesceFacts | simpleallocator.c:188-216 | the pass conserves list bytes, never lengthens the list, leaves off-list blocks alone, and leaves no entry whose physical successor is free and in its zone |
| Allocator.Grow | simpleallocator.c:97-125 | mmap failure changes nothing; success prepends zone [base+Z, base+region) and descriptor base+Z with len region - Z - H ending at the zone end, and sets cur_zone_sz to region |
| Allocator.Take | simpleallocator.c:234-236 | the hit returns the chosen descriptor plus H, records it as handed out, and its length is at least n |
| Allocator.Again | simpleallocator.c:233-259 | the `again:` ladder: the merged and realloced flags only rise, and realloced implies merged; what a hit hands out and when a miss happens are stated by AgainHit and AgainLadder |
| Allocator.AgainHit | simpleallocator.c:233-261 | a non-NULL ladder result is a descriptor plus H, now at the head of the handed-out blocks, with len >= n |
| Allocator.AgainLadder | simpleallocator.c:233-259 | flags only go up; a miss hands out nothing and only happens after coalescing, and without growth only when the growth mapping failed; at most one zone is added; cur_zone_sz never shrinks |
| Allocator.LazyInit | simpleallocator.c:227-232 | with no zone, maps INITIAL_SIZE: the result has exactly one zone, starting a zone header past the base the mapping returned, with INITIAL_SIZE - Z usable bytes, cur_zone_sz is INITIAL_SIZE, and the zone's single descriptor, of len INITIAL_SIZE - Z - H, heads the free list; fails iff there is no zone and that mapping fails; otherwise a no-op |
| Allocator.Alloc | simpleallocator.c:218-262 | sa_alloc(0) returns NULL and changes nothing; a non-NULL result is a descriptor plus H with len >= n, now handed out; NULL hands nothing out |
| Allocator.AllocRetries | simpleallocator.c:218-262 | at most one coalescing and one growth per call; NULL after the first mapping only once coalescing ran, and without growth only when the growth mapping failed; NULL before any zone means the initial mapping failed and nothing changed; cur_zone_sz never decreases |
| Allocator.Free | simpleallocator.c:264-273 | NULL is a no-op; otherwise the descriptor at ptr - H goes to the list head with every length, zone and cur_zone_sz unchanged, and leaves the handed-out blocks |
| Arena.EmptyInv | simpleallocator.c:52-54 | the state at process start satisfies the invariant |
| GrowInv.OwnedOutsideFresh | simpleallocator.c:101-103 | an owned block lies entirely below or above a fresh mapping |
| GrowInv.GrowZonesWf | simpleallocator.c:111-114 | prepending a fresh zone keeps zones pairwise apart |
| GrowInv.GrowBooks | simpleallocator.c:116-121 | the fresh descriptor is not owned, lists stay duplicate-free and disjoint, other lengths are unchanged |
| GrowInv.GrowTiled | simpleallocator.c:111-121 | the fresh block fills its zone and overlaps no owned block; old blocks stay in their zones |
| GrowInv.GrowAccounted | simpleallocator.c:116-119 | the fresh zone adds exactly its usable bytes, all in the fresh block |
| GrowInv.GrowPreservesInv | simpleallocator.c:97-125 | a successful growth preserves the invariant |
| UseInv.NothingStartsInside | simpleallocator.c:131 | no owned block starts strictly inside another, so the split point is unowned |
| UseInv.SplitShape | simpleallocator.c:130-144 | the state after a split: tail in the node's place, node handed out with len n, tail unowned |
| UseInv.SplitBooks | simpleallocator.c:130-144 | a split keeps the lists duplicate-free and disjoint |
| UseInv.SplitTiled | simpleallocator.c:130-144 | node and tail partition the old block, so both stay in the zone and overlap nothing |
| UseInv.SplitSpan | simpleallocator.c:133 | node bytes plus tail bytes plus one header equal the old block's bytes, so free plus handed-out bytes are conserved |
| UseInv.SplitAccounted | simpleallocator.c:130-144 | a split conserves free plus handed-out bytes |
| UseInv.SplitKeepsInv | simpleallocator.c:130-144 | the split branch preserves the invariant |
| UseInv.ConsumeKeepsInv | simpleallocator.c:145-154 | the consume branch preserves the invariant |
| UseInv.TakeKeepsInv | simpleallocator.c:127-155 | handing out any fitting entry preserves the invariant |
| MergeInv.MergeBooks | simpleallocator.c:175-186 | a merge keeps the books and removes exactly the absorbed block from ownership |
| MergeInv.MergePlaced | simpleallocator.c:198-209 | the grown leader stays in the zone holding it and its successor |
| MergeInv.MergeSeparate | simpleallocator.c:179 | the grown leader covers exactly the two old blocks, so it overlaps nothing else |
| MergeInv.MergeTiled | simpleallocator.c:175-186 | a merge keeps blocks in their zones and apart |
| MergeInv.MergeKeepsInv | simpleallocator.c:175-186 | one merge preserves the invariant |
| MergeInv.MergeRunKeepsInv | simpleallocator.c:196-213 | a leader's run preserves the invariant |
| MergeInv.MergePassKeepsInv | simpleallocator.c:192-215 | the outer walk preserves the invariant |
| MergeInv.CoalesceKeepsInv | simpleallocator.c:188-216 | do_freelist_merge preserves the invariant |
| AllocInv.FreeKeepsInv | simpleallocator.c:264-273 | releasing a handed-out pointer, or NULL, preserves the invariant |
| AllocInv.AgainKeepsInv | simpleallocator.c:233-259 | the retry ladder preserves the invariant for every fresh mapping |
| AllocInv.AllocKeepsInv | simpleallocator.c:218-262 | sa_alloc preserves the invariant |
| Properties.HeadOfUsed | simpleallocator.c:261 | in a reachable state the newest handed-out block is listed once, is not free, lies in a zone and overlaps no owned block |
| Properties.HandOutIsFresh | simpleallocator.c:234-236 | a recorded hand-out in a reachable outcome is a fresh, placed, non-overlapping block of len >= n |
| Properties.AllocHandsOutFreshBlock | simpleallocator.c:218-262 | a non-NULL sa_alloc result is the data of a block that was not already handed out, is off the free list, has len >= n, lies in a zone and overlaps nothing |
| Properties.OthersStayHandedOut | simpleallocator.c:218-262 | an outcome returns no block that is already handed out, and such blocks stay handed out with their lengths |
| Properties.HandedOutStays | simpleallocator.c:218-262 | sa_alloc never returns a pointer still handed out, and leaves such blocks handed out with their lengths |
| Properties.ReleasedBlockReused | simpleallocator.c:264-273 | after sa_free(p), a request that p's block fits returns p again, with no coalescing and no growth |
| Properties.ReleaseAndRetake | simpleallocator.c:264-273 | a block just handed out, once released, is returned by the next request of the same size |
| Properties.LifoReuse | simpleallocator.c:264-273 | sa_alloc(n) = p, then sa_free(p), then sa_alloc(n) returns p, with no coalescing or growth |
| Properties.ReuseAfterAlloc | simpleallocator.c:218-273 | after a further sa_alloc(n) that returns another pointer, releasing p and allocating n returns p |
| Properties.RetakeAfter | simpleallocator.c:264-273 | a still handed-out block, once released, is returned by the next request it fits |
| Properties.InterleavedReuse | simpleallocator.c:218-273 | after a successful sa_alloc(n), a second sa_alloc(n) returns a different pointer or NULL; freeing the first and allocating n again returns the first |
| Properties.ReuseScenario | simpleallocator.c:218-273 | the same, starting from process start; there the second sa_alloc(n) succeeds whenever two blocks of n bytes and a descriptor fit in the initial block |
| Properties.FirstFitHit | simpleallocator.c:233-236 | once a zone is mapped, a request some entry fits returns the data pointer of the first fitting entry in list order, with no coalescing, no growth and the zones unchanged |
| Properties.HeadFitHits | simpleallocator.c:233-236 | with a zone mapped and the list head long enough, sa_alloc returns the head's data pointer with no coalescing and no growth |
| Properties.SplitLeavesTail | simpleallocator.c:127-144 | sa_alloc(n) on a single free block with room for 2n + H bytes returns that block and leaves its tail, at data + n and of at least n bytes, as the only entry |
| Properties.SmallRequestsSucceed | simpleallocator.c:225-261 | from process start, once the initial mapping succeeds, sa_alloc(n) returns base + Z + H for the base that mapping returned, and a second sa_alloc(n) returns the split-off tail, whenever 2n + H fits in the initial block |
| Properties.TakeKeepsUsedLengths | simpleallocator.c:127-155 | splitting or consuming a free entry changes no handed-out block's length |
| Properties.GrowKeepsUsedLengths | simpleallocator.c:116-121 | carving a fresh descriptor changes no handed-out block's length |
| Properties.AgainKeepsUsedLengths | simpleallocator.c:233-259 | the retry ladder changes no handed-out block's length |
| Properties.UsedLengthsKept | simpleallocator.c:218-262 | sa_alloc changes no handed-out block's length |
| Growth.GrowthFits | simpleallocator.c:243-247 | the grown block holds the request iff the request plus both headers stays within the 1 MiB step (rounding path) or within twice cur_zone_sz (doubling path) |
| Growth.GrowthRetryHits | simpleallocator.c:241-255 | when the grown block has room, the retry after growth hits at the fresh block |
| Growth.GrowthMayNotFit | simpleallocator.c:241-255 | from process start, sa_alloc(1 MiB - 10) with an always-succeeding mapping grows a 1 MiB zone and still returns NULL |
| Growth.BumpIsFresh | simpleallocator.c:101-103 | the mapping that places each region above every zone only returns fresh regions |
| CoalescingServes.MergeKeepsCovers | simpleallocator.c:175-186 | after a merge, the grown leader covers whatever range the absorbed entry covered, and every other covering entry survives unshrunk |
| CoalescingServes.RunKeepsCovered | simpleallocator.c:196-213 | a leader's run keeps every block that was free before it inside some entry |
| CoalescingServes.PassKeepsCovered | simpleallocator.c:192-215 | the outer walk keeps every block that was free before it inside some entry |
| CoalescingServes.CoalesceCovers | simpleallocator.c:188-216 | every block free before do_freelist_merge lies inside some free-list entry after it: no free range is lost |
| CoalescingServes.AdjacentSameZone | simpleallocator.c:198-203 | in a reachable state, an owned block that starts where another owned block ends lies in the same zone, so within_same_zone accepts the pair |
| CoalescingServes.SettledHasNoFreeSuccessor | simpleallocator.c:198-212 | an entry the pass left settled has no free block starting at its end |
| CoalescingServes.JoinCovers | simpleallocator.c:188-216 | after the pass, two abutting covered ranges are covered by a single entry |
| CoalescingServes.ChainEnd | simpleallocator.c:198 | a run of consecutive blocks ends exactly its total bytes, headers included, past its first descriptor |
| CoalescingServes.ChainCoalesced | simpleallocator.c:188-216 | after the pass, a run of consecutive blocks that were all free lies inside one entry |
| CoalescingServes.CoverFits | simpleallocator.c:157-173 | find_right succeeds once some entry covers a range that holds the request |
| CoalescingServes.ChainServesRequest | simpleallocator.c:233-240 | with consecutive blocks on the free list, sa_alloc of at most their lengths plus the descriptors between them returns a block without growing the arena |
| CoalescingServes.PairServesRequest | simpleallocator.c:233-240 | two abutting free blocks serve a request of up to both lengths plus one descriptor without growth |
| CoalescingServes.AdjacentReleaseCoalesces | simpleallocator.c:264-273 | with one block free, sa_free of the block right after it keeps the invariant, and then sa_alloc of up to both lengths plus one descriptor succeeds without growth |

## Left out

- The real `mmap` call and its protection flags. The mapping is a
  parameter, and the invariant proofs assume it only returns fresh
  regions.
- `DPRINTF`, `sa_print_freelist` and `util.h`: debug output with no
  effect on the state.
- `simpleallocator.h`: prototypes only.
- `repl.c`: the interactive client of the allocator, which is I/O and
  glue.
- Payload bytes, and the descriptors' `next` and `data` fields. The list
  order is the `free` sequence, and `data` is always `descriptor + H`
  (`Layout.Data`).
- `next_node` may point outside any mapping (simpleallocator.c:200).
  The code only compares it until `on_freelist` finds it on the list, so
  the model's plain address membership is exact.
- Allocator.Free: requires a pointer that `sa_alloc` returned and that has
  not been released since. Double release and foreign pointers are
  undefined behaviour in the C code.
- Allocator.Grow: requires `region >= Z + H`. The C code would wrap the
  length for smaller regions, but it is only ever called with
  `INITIAL_SIZE` or a growth target of at least twice that.
- Zones.GrowthTarget: does not model `size_t` wrap-around of
  `region + 0x100000` or `2 * cur_zone_sz`. Sizes are unbounded, and
  the mask of line 244 is modelled as rounding down to a multiple of
  2^20.
- Allocator.Again: its own contract covers only the flags. What a hit
  hands out, and when a miss happens, are stated in Allocator.AgainHit
  and Allocator.AgainLadder.
- FreeList.Merge: conserves the list bytes only when the list is
  duplicate-free, the leader is on it and is not the absorbed entry. The
  coalescing pass always meets these conditions.
- The `used` field is a record kept only by the model. The C code has
  nothing like it.
- CoalescingServes.AdjacentReleaseCoalesces: takes the first block as already
  free rather than composing two `sa_free` calls in one statement. The
  first call is covered by Allocator.Free and AllocInv.FreeKeepsInv, and
  a chain of any length is covered by CoalescingServes.ChainServesRequest.
