# moonsugar: a verified model of the allocators, protocols and containers

moonsugar is a C runtime library: memory allocators, a thread pool, file descriptors,
containers and coroutines. This project models its hardest parts in Dafny 4.11 and
proves what they are for. `dafny verify dfyconfig.toml` checks everything.

## What is modelled

**The boundary-tag allocators.** `Bits` has the machine-word arithmetic of `util.h`, bit
by bit. `Blocks` is the abstract value of a free list: a sequence of free blocks and a set
of live chunks that tile a region. `FreeLists` is `freelist.c` as a class whose methods
rewrite `first` and the `next`, `prev` and `size` fields of node records in place; its
ghost field `blocks` is the abstract value. `FreeListRuns` reasons about whole runs.
`Regions` is the header carving that `heap.c` and `arena.c` share. `Payloads` says what one
call does to the bytes of the payloads, `Heaps` adds the commit mark and realloc, and
`Arenas` chains regions with byte accounting and the growth rule. `Stores` and `HeapRuns`
are about clients of a heap over whole runs, `Clients` about clients of an arena, and
`SizeWords` shows the states in which a size word misleads the allocators.

**The concurrent protocols.** `TaskPool`, `FileDescriptors` and `BumpStack` are state
machines: one event is one atomic operation or one locked section, and a theorem about a
run is a theorem about every interleaving. All atomics are sequentially consistent.

**The containers and the scheduler.** `HashMaps`, `Rings`, `TaskQueues`, `IndexedPools`
and `Coroutines` are classes over arrays, proved against a finite map, a bounded FIFO
sequence, a set of indices, and "each coroutine once per round". `Results` and `Counting`
are helpers.

Addresses and sizes are 64-bit words; regions end below 2^64 and, like their sizes, begin
at multiples of 8. Memory that the operating system or another allocator hands out is a
parameter of the method that receives it, and so is whether `ms_commit` succeeds in the
bump allocator, whether a weak compare-exchange fails for no reason, what a coroutine
handler does, and what a key hashes to. `ms_fatal` stops the program: a method reports it
as `trapped`. An `assert` inside a method body is an `MS_ASSERT` of the source where the
source has one; where its truth depends on a size word, a ghost flag says when it holds.

## What the proofs say about the code

- A live chunk still has a size word from the time when it was free, and
  `find_prev_node`, the empty-list branch of `ms_free_list_free` and the accounting of
  `ms_arena_free` read it. Header or payload lie on that word unless the padding is at
  least 24 bytes (`Regions.SizeWordSurvives`); with the default alignment it is the first
  eight bytes of the payload. Giving a chunk back works if and only if the word is
  harmless, with the 64-bit wrap of the chunk's end taken into account
  (`FreeLists.FreeAsCodedExact`; the method `FreeLists.FreeList.Free` is proved for every
  word), and the accounting of an arena is right if and only if it is intact
  (`Arenas.AccountingExact`).
- What a client writes there does not matter at all if and only if the chunk lies in front
  of all free nodes or there is just one (`FreeLists.AnyWordHarmless`). A number up to the
  chunk's size does no harm while any byte of the region is free (`Stores.NotFull`,
  `Stores.NotFullAfter`). A client of a heap that keeps to this can write to its payloads
  and let them grow, as often as it likes, and finds the bytes it wrote
  (`HeapRuns.KeepAll`); one that leaves the word alone can even fill the heap
  (`HeapRuns.ServeAll`). Other words do harm, and so does the header itself when the padding
  is 8, which alignments from 16 on allow: `Regions.PaddingKinds` and the states in
  `SizeWords`.
- `compute_free_list_node_size` covers the request if and only if nothing wraps in 64 bits
  (`FreeLists.NodeSizeExact`). A request that wraps to 0 leaves a node that is its own
  successor (`FreeLists.WrappedRequest`).
- `find_smallest_node` does not always find the smallest node: a run of six calls reaches
  a list on which it misses it (`FreeListRuns.SearchMissesSmaller`). It finds a smallest
  fit if and only if the sizes descend from the first fit to one
  (`Blocks.FindsSmallestExactly`).
- A power-of-two arena base from 16 on serves every request whose node size does not wrap
  in 64 bits if and only if it is at least the alignment and not both are 16
  (`Arenas.NewNodeServesExactly`); with any other, the first request can get NULL
  (`Arenas.FirstMallocFails`). A request of 2^61 bytes, whose node size wraps, gets a
  node that cannot hold it, for any base up to 2^60 (`Arenas.WrappedNodeFails`).
- Growing a payload in place is covered by the commit mark up to what malloc asked the
  free list for; its whole chunk is covered if and only if the chunk is not the last of
  the heap or the whole heap is committed (`Heaps.Heap.GrowthCoveredExactly`), and
  `Heaps.GrowPastMark` is a heap where it is not.
- A dispatch can be followed by a run that starts its handler twice if and only if it
  dispatches a parent whose counter has reached zero (`TaskPool.DispatchExact`, with a
  concrete forest in `TaskPool.DispatchAfterZeroRunsTwice`).
- After a serial run, letting a second thread into the loop of `ms_fopen` beside another
  can lead to a lost or shared descriptor if and only if the other has not found the list
  empty and there are at least two descriptors (`FileDescriptors.EnteringBesideExact`). A
  successful swap keeps every descriptor in one place if and only if the successor it read
  is still the one in the node (`FileDescriptors.PopKeepsPartitionExactly`).
- The offset mask of `ms_ipool_release` names the bit of an item if and only if the low 24
  bits of the item are below 64; with a shift that takes its count modulo 64 it does so
  for every item (`IndexedPools.MaskedOffset`).

## Model

| member | source | states |
|---|---|---|
| `Bits.IsPower2Correct` | include/moonsugar/util.h:21-23 | a population count of one characterises the powers of two, for every number |
| `Bits.ChooseCorrect` | include/moonsugar/util.h:47-51 | the branch-free selection returns the operand the condition asks for, for all 64-bit operands |
| `Bits.AlignSzIsRoundUp` | include/moonsugar/util.h:61-63 | for every 64-bit value and power-of-two boundary, aligning is rounding up to the next multiple, modulo 2^64 |
| `Bits.AlignSzExact` | include/moonsugar/util.h:61-63 | the result is the least multiple that is not smaller exactly when the value is at most 2^64 minus the boundary; otherwise it is 0 |
| `Bits.MaskIsMod` | src/containers/ring.c:38 | masking with a power of two minus one is the remainder, which ring, map and alignment rely on |
| `Bits.TestBit` | include/moonsugar/util.h:190 | masking with one bit yields that bit and nothing else |
| `Bits.BitOr` | include/moonsugar/util.h:200 | setting a mask sets its bits and keeps the others |
| `Bits.BitAndNot` | include/moonsugar/util.h:210 | clearing a mask clears its bits and keeps the others |
| `Blocks.ChosenUnique` | src/memory/freelist.c:62-88 | the outcome of the search is determined by the list and the rounded size |
| `Blocks.ChosenIsSmallest` | src/memory/freelist.c:77-88 | the chosen node is no larger than the first fit and smallest among the fits up to where the scan stops |
| `Blocks.FindsSmallestExactly` | src/memory/freelist.c:62-88 | the chosen node is a smallest fit of the whole list if and only if the sizes descend from the first fit to a smallest fit |
| `Blocks.TakeKeepsInv` | src/memory/freelist.c:90-118 | splitting a node or taking it whole keeps order, disjointness, maximal coalescing and the exact tiling of the region, bytes included |
| `Blocks.InsertKeepsInv` | src/memory/freelist.c:154-176 | inserting a live chunk at its position and merging it with touching neighbours keeps all of that |
| `Blocks.RankIsPosition` | src/memory/freelist.c:178-193 | a chunk apart from all nodes has a position: the nodes before it end before it, the others begin after it |
| `Blocks.ReleaseKeepsInv` | src/memory/freelist.c:195-209 | giving any live chunk back keeps the invariant |
| `Blocks.Canonical` | src/memory/freelist.c:147-176 | a coalesced list is determined by the addresses it covers |
| `FreeLists.Watermark.Commit` | src/memory/heap.c:41-58 | the commit mark moves forward to the end asked for, and never back |
| `FreeLists.NodeSizeExact` | src/memory/freelist.c:14-16 | the node size covers request and header exactly when the sum fits in a word; then it is the rounded sum and at least a node record |
| `FreeLists.WrappedRequest` | src/memory/freelist.c:90-118 | a request that rounds to 0 bytes is handed a chunk of size 0 that stays in the list as its own successor |
| `FreeLists.FreeList.CreateNode` | src/memory/freelist.c:18-44 | the node is linked in between the given neighbours, next and prev stay mutual inverses, only three records change, the callback has committed the record, and for a call in address order the assertions hold |
| `FreeLists.FreeList.CreateOnlyNode` | src/memory/freelist.c:18-44 | without neighbours the list becomes this one node |
| `FreeLists.FreeList.Detach` | src/memory/freelist.c:46-60 | the node is unlinked wherever it is in the list, and only its neighbours' records change |
| `FreeLists.FreeList.FindFirstFit` | src/memory/freelist.c:69-75 | the first node that reaches the size, or NULL exactly when none does |
| `FreeLists.FreeList.FindSmallest` | src/memory/freelist.c:62-88 | NULL exactly when no node reaches the size, otherwise the node the refined scan must choose |
| `FreeLists.FreeList.SplitNode` | src/memory/freelist.c:101-109 | the front keeps the bytes asked for and the rest becomes the following node; the assertions hold |
| `FreeLists.FreeList.MallocNode` | src/memory/freelist.c:90-118 | the chunk leaves the list, whole when the rest could not hold a record; the reported size is the chunk's |
| `FreeLists.FreeList.MallocRounded` | src/memory/freelist.c:126-136 | for a rounded size n: NULL exactly when nothing fits and then nothing changes, otherwise the chosen block is taken, and the mark ends at the larger of where it was and n bytes past the chunk's start, 24 more exactly when the block has so many left |
| `FreeLists.FreeList.Malloc` | src/memory/freelist.c:120-137 | the same for a request and an alignment, also when the rounded size wraps, as long as it is at least a node record |
| `FreeLists.FreeList.Coalesce` | src/memory/freelist.c:139-145 | two adjacent nodes become one of the summed size |
| `FreeLists.PrevIndexFrom` | src/memory/freelist.c:178-193 | for every size word, with the chunk's end as a 64-bit pointer: the right predecessor is found exactly when no node before it begins at or past that end and the one after does; otherwise an earlier one or none |
| `FreeLists.PrevIndexIsFirst` | src/memory/freelist.c:178-193 | for every size word, the node found is the first that is the last of the list or followed by one at or past the chunk's end, if all up to there end before the chunk; none otherwise |
| `FreeLists.FreeList.FindPrev` | src/memory/freelist.c:178-193 | the loop over the chain, with 64-bit ends, computes that predecessor |
| `FreeLists.FreeList.CoalesceRight` | src/memory/freelist.c:163-166 | a merge with the right neighbour exactly when it begins where the chunk ends |
| `FreeLists.FreeList.TryCoalesce` | src/memory/freelist.c:154-176 | merges with both neighbours in the chain that touch and returns the first node of the result; for a chunk at its position both assertions hold |
| `FreeLists.FreeList.Free` | src/memory/freelist.c:195-209 | whatever the size word says, the list becomes what that word makes of it; with a harmless word the assertions hold and it is the released list: sorted position, both merges, maximal coalescing |
| `FreeLists.FreeAsCodedExact` | src/memory/freelist.c:195-209 | for every size word, freeing yields the released list if and only if the word is harmless |
| `FreeLists.SmallWordHarmless` | src/memory/freelist.c:178-209 | a word up to the chunk's size is harmless while some node is free |
| `FreeLists.AnyWordHarmless` | src/memory/freelist.c:178-209 | every word is harmless if and only if the chunk lies in front of all free nodes, or there is exactly one |
| `FreeListRuns.MallocIsStep` | src/memory/freelist.c:120-137 | what malloc does to the list, successful or not, is a step of these runs |
| `FreeListRuns.FreeIsStep` | src/memory/freelist.c:195-209 | what free does to it is a step exactly for a harmless size word |
| `FreeListRuns.RunKeepsInv` | src/memory/freelist.c:120-209 | after any sequence of mallocs and frees from one spanning node: ordered, disjoint, maximally coalesced, and an exact tiling |
| `FreeListRuns.RunConservesBytes` | src/memory/freelist.c:90-176 | free and live bytes add up to the region in every reachable state |
| `FreeListRuns.LiveBytesDecide` | src/memory/freelist.c:147-209 | the free list depends on which bytes are live and on nothing else of its history |
| `FreeListRuns.FreedEverything` | src/memory/freelist.c:195-209 | a run that has freed everything ends with the one original node |
| `FreeListRuns.MallocThenFree` | src/memory/freelist.c:120-209 | freeing a chunk right after its allocation restores the list |
| `FreeListRuns.FreesCommute` | src/memory/freelist.c:195-209 | two frees in either order leave the same list |
| `FreeListRuns.SearchMissesSmaller` | src/memory/freelist.c:79-85 | a run that reaches a list on which the search passes over a smaller fitting node |
| `Regions.AlignedPayload` | src/memory/heap.c:144-151 | in any chunk of the computed size the pointer is aligned, the header lies before it and the requested bytes after it inside the chunk |
| `Regions.SizeWordSurvives` | src/memory/heap.c:144-151 | neither header nor payload lies on the chunk's size word exactly when the padding is at least 24 |
| `Regions.PaddingKinds` | src/memory/heap.c:144-151 | paddings are multiples of 8, 0 for the default alignment, and the header changes the size word only at padding 8 |
| `Regions.Region.WriteHeader` | src/memory/heap.c:144-153 | the header written below the payload leads back to exactly the chunk and its size, and what it does to the size word |
| `Regions.Region.Carve` | src/memory/arena.c:89-94 | a successful carve adds one chunk to the live set and keeps the tiling and the other chunks' records |
| `Regions.Region.Allocate` | src/memory/arena.c:86-106 | carving and header together: a new payload pointer, its header, its chunk; every other chunk keeps its size word, whatever it is, and the new one has what the header leaves of it |
| `Regions.Region.GiveBack` | src/memory/heap.c:164 | the chunk joins the free blocks and no live chunk's record changes |
| `Regions.Region.Free` | src/memory/heap.c:161-164 | the header recovers the chunk start and size that malloc handed out, just that chunk is given back, and every other chunk keeps its size word |
| `Regions.Region.Reset` | src/memory/arena.c:231 | a fresh first node over the whole region |
| `Regions.Region.Scribble` | src/memory/freelist.c:178-209 | a client that overwrites the stale record of its own chunk changes no other record or size word and cannot break the list |
| `Regions.IntactWordHarmless` | src/memory/freelist.c:183-207 | a size word that was not overwritten is harmless |
| `Regions.Region.PayloadsApart` | src/memory/heap.c:130-157 | distinct live payloads, headers included, do not overlap |
| `Regions.Region.AllFreed` | src/memory/heap.c:118-121 | when every pointer was freed the region is one node of its full size again |
| `Regions.TidyCanBeFreed` | src/memory/heap.c:159-164 | where only headers were written over size words, a payload can be freed unless its padding is 8 |
| `Regions.MarkAfterTake` | src/memory/heap.c:60-84 | after an allocation the commit mark is past every free node's record |
| `Regions.MarkAfterRelease` | src/memory/heap.c:60-71 | and so it is after a free |
| `Heaps.MarkCovers` | src/memory/heap.c:73-84 | the mark moves past the bytes asked of the free list, which hold header and payload as requested, and stays inside the heap |
| `Heaps.Heap.constructor` | src/memory/heap.c:86-116 | a heap begins with one node over its region and one committed record |
| `Heaps.Heap.Malloc` | src/memory/heap.c:130-157 | NULL exactly for count 0 or when no node fits, and then the mark stays; otherwise an aligned new payload inside the heap and below the mark, no larger than rounding makes it, with the bytes and size words of all others untouched; the mark ends at the larger of where it was and the rounded size past the chunk's start, 24 more exactly when the chosen block has so many left |
| `Heaps.Heap.Free` | src/memory/heap.c:159-182 | a pointer between base and end loses exactly its own chunk, any other pointer changes nothing, the others keep bytes and size words, and the mark stays where it is |
| `Heaps.Heap.PayloadBounds` | src/memory/heap.c:187-188 | the available size that realloc computes does not wrap, is at least what was asked for and stays inside the heap |
| `Heaps.Heap.PayloadsLaid` | src/memory/heap.c:130-157 | payloads with all their available bytes are pairwise disjoint |
| `Heaps.Heap.MetadataOutside` | src/memory/heap.c:144-151 | free nodes' records and other payloads' headers lie outside every byte a payload can grow into |
| `Heaps.Heap.TakeWritesOutside` | src/memory/freelist.c:90-118 | every node record that malloc writes lies outside all live payloads |
| `Heaps.Heap.ReleaseWritesOutside` | src/memory/freelist.c:195-209 | every node record that free writes lies outside all other payloads |
| `Heaps.Heap.Write` | src/memory/heap.c:195 | bytes written to a payload change that payload only, and its size word exactly to what its first eight bytes then spell, if they lie on it |
| `Heaps.Heap.CopyOut` | src/memory/heap.c:190-195 | the new payload holds the old bytes, the old one and all others are as before, and the old one can be freed |
| `Heaps.Heap.Relocate` | src/memory/heap.c:190-201 | allocate, copy, free: only the one payload moved, whatever its size word, as long as that is harmless once the new chunk is taken |
| `Heaps.Heap.ReallocFromFreeList` | src/memory/heap.c:186-207 | stays in place when there is room; otherwise moves, and traps exactly when nothing fits |
| `Heaps.Heap.Realloc` | src/memory/heap.c:209-224 | all four branches: what the heap is to its clients afterwards, when it traps, and that the mark moves only for a new payload, past the bytes asked for it and at most one record |
| `Heaps.Heap.ReallocKeepsBytes` | src/memory/heap.c:209-224 | after any successful realloc the first min(old, new) bytes survive wherever the payload ends up, and every other payload keeps header, bytes and size word |
| `Heaps.Heap.GrowthCoveredExactly` | src/memory/heap.c:190-206 | growth in place is committed up to what malloc asked the free list for; all of the chunk is, exactly when it is not the last of the heap or the whole heap is committed |
| `Heaps.GrowPastMark` | src/memory/heap.c:190-206 | a heap of 4096 bytes whose payload of 4065 is granted 4080 in place and ends 8 bytes past the mark |
| `Payloads.GainedThenFilled` | src/memory/heap.c:190-195 | a new payload filled with the bytes of another holds them, and all payloads there were keep theirs |
| `Payloads.ShownWritten` | src/memory/freelist.c:178-209 | a write inside one payload keeps every other payload and what it shows of its size word |
| `Stores.HeldMoves` | src/memory/heap.c:190-201 | a payload that moved still holds its string, at the front of a longer one, and the others theirs |
| `Stores.NotFull` | src/memory/freelist.c:195-209 | a number up to the chunk's size on the size word is harmless while some byte of the region is free |
| `Stores.NotFullAfter` | src/memory/heap.c:190-201 | the same for the free after a relocation, if the request leaves some byte free |
| `Stores.AllUsed` | src/memory/heap.c:130-182 | the sizes in the headers add up to the bytes of the live chunks, so a client can tell |
| `HeapRuns.ServeAll` | src/memory/heap.c:130-182 | any sequence of mallocs with default alignment and frees of live payloads, by a client that leaves the size words alone: every free meets its precondition, and with all given back the heap is one node |
| `HeapRuns.KeptCanMove` | src/memory/heap.c:186-207 | the growth of any payload of such a client meets the precondition of realloc |
| `HeapRuns.KeepAll` | src/memory/heap.c:130-224 | any sequence of mallocs, writes, reallocs and frees, by a client whose first eight bytes spell at most what it was given and that keeps some bytes free: every call meets its precondition, the heap behaves as a store of byte strings that growth extends and frees remove, with all given back it is one node, and the commit mark moves as `Payloads.MarkIsTight` asks |
| `Payloads.MarkIsTight` | src/memory/heap.c:41-84 | over any run, the commit mark is where it began or at most one record past the largest end of bytes asked for that there has been, and never before any of these ends |
| `Payloads.LowestFirst` | src/memory/freelist.c:178-209 | the bytes under a size word spell it lowest first |
| `Arenas.ArenaNode.constructor` | src/memory/arena.c:70-84 | a node begins with one spanning free block and nothing allocated |
| `Arenas.ArenaNode.SkipIsSafe` | src/memory/arena.c:117-122 | total minus allocated is the sum of the free blocks, so a node the check skips could not have served the request |
| `Arenas.ArenaNode.Allocate` | src/memory/arena.c:86-107 | allocates exactly when a block fits, the accounting grows by the chunk, and earlier payloads keep their size words |
| `Arenas.ArenaNode.Free` | src/memory/arena.c:163-171 | with an intact size word the accounting shrinks by the chunk, its assertion holds, and the remaining payloads keep their size words |
| `Arenas.ArenaNode.Clear` | src/memory/arena.c:220-231 | the node is one full-span free block with nothing allocated |
| `Arenas.AccountingExact` | src/memory/arena.c:166-171 | subtracting the size word in 64 bits keeps the accounting right if and only if it is the chunk's size |
| `Arenas.NewNodeSizeExact` | src/memory/arena.c:136-139 | the 64-bit size of a new node is twice the rounded room if and only if that fits in a word |
| `Arenas.NewNodeGrows` | src/memory/arena.c:136-139 | a new node is at least twice the last one and sixteen times the request |
| `Arenas.NewNodeServes` | src/memory/arena.c:136-149 | with a base at least the alignment, not both 16, the new node can hold the rounded request, on any chain |
| `Arenas.NewNodeServesExactly` | src/memory/arena.c:136-149 | power-of-two bases from 16 on: every request whose node size fits in a word is served if and only if that holds |
| `Arenas.FirstMallocFails` | src/memory/arena.c:109-153 | for every other base, an empty arena and a request that get NULL |
| `Arenas.WrappedNodeFails` | src/memory/arena.c:136-149 | for every base up to 2^60, a request whose node size wraps and that the new node cannot hold |
| `Arenas.DoublingFrom` | src/memory/arena.c:131-139 | node k of a chain has at least 2^k times the base size, counting from one |
| `Arenas.Arena.Skipped` | src/memory/arena.c:117-122 | the preliminary check of any node of the chain is safe |
| `Arenas.Arena.TryNodes` | src/memory/arena.c:116-129 | the first node with room serves the request, all before it had none, and no other node changes |
| `Arenas.Arena.Grow` | src/memory/arena.c:136-147 | the new node is linked last, apart from the others; its total is twice the larger of eight times the request and the last total, or the base for an empty chain, rounded up to the base, and just twice the last total when eight times the request is no more |
| `Arenas.Arena.Malloc` | src/memory/arena.c:109-153 | the first node with room, or a new one, of that same size, that serves exactly when it is large enough, with the size words of all payloads kept; never NULL for count > 0 when the base serves all |
| `Arenas.Arena.FindHolder` | src/memory/arena.c:162-163 | the first node whose memory holds the pointer, strictly between its base and end, or none exactly when no node does |
| `Arenas.Arena.Free` | src/memory/arena.c:155-188 | only the holder changes, it loses only that payload, and the others keep their size words; NULL and foreign pointers change nothing |
| `Arenas.Arena.Clear` | src/memory/arena.c:214-234 | every node of a sticky arena is one full-span free block |
| `Clients.ArenaRunKeepsTidy` | src/memory/arena.c:109-234 | over any sequence of calls of a sticky arena, size words are only ever changed by headers |
| `Clients.ClearIsStep` | src/memory/arena.c:214-234 | what clearing a sticky arena leaves is a step of these runs |
| `Clients.TidyMayFree` | src/memory/arena.c:155-188 | at any moment of such a run, a live payload whose header spares its size word may be freed |
| `Clients.GetFreeable` | src/memory/arena.c:109-153 | a default-aligned malloc of an arena never returns NULL and what it returns may be freed |
| `SizeWords.SpoiledByClient` | src/memory/freelist.c:205-208 | a reachable region whose client wrote zeros: the free of its only payload would leave a node of size 0 |
| `SizeWords.SpoiledByHeader` | src/memory/freelist.c:205-208 | a reachable region in which a header alone has spoiled the size word |
| `SizeWords.SpoiledByWrap` | src/memory/freelist.c:178-193 | a reachable region with a word near 2^64 for which the chunk would be linked in out of order |
| `SizeWords.AccountingSpoiled` | src/memory/arena.c:166-171 | a reachable arena node with a word that is harmless to the list and wrong for the accounting |
| `TaskPool.StepKeepsInv` | src/thread/pool.c:10-35 | every step of every worker and dispatcher keeps the invariant, and each effective one shortens what is left |
| `TaskPool.RunIsSafe` | src/thread/pool.c:10-35 | in any interleaving each counter equals the unfinished children, at most one decrement sees zero, no handler starts twice, and a parent starts only after all its children were counted; a run has at most seven effective steps a task |
| `TaskPool.AnyRunIsBounded` | src/thread/task.c:42-57 | whatever is dispatched and when, the queue never holds more than its capacity and no handler starts for a copy made with unsatisfied dependencies |
| `TaskPool.EnqueueSucceeds` | src/thread/pool.c:27-29 | with at most as many tasks as the queue holds, no enqueue fails |
| `TaskPool.QuietMeansAllRan` | src/thread/pool.c:14-31 | once all leaves are dispatched, the queue is empty and the workers idle, every task has run exactly once |
| `TaskPool.NeverStuck` | src/thread/pool.c:10-35 | until then some effective step is possible |
| `TaskPool.RunToQuiet` | src/thread/pool.c:10-35 | from every reachable state some run finishes everything, even while a dispatcher is held up between its load and its enqueue |
| `TaskPool.LateDispatchRunsTwice` | src/thread/pool.c:92-97 | a dispatcher that has read the zero of a parent's counter can make the parent run twice, in any forest |
| `TaskPool.DispatchExact` | src/thread/pool.c:92-97 | after any run in order, the next dispatch can lead to a handler starting twice if and only if it dispatches a parent whose counter is zero |
| `TaskPool.DispatchAfterZeroRunsTwice` | src/thread/pool.c:92-97 | a concrete run of a parent and its child that gets there |
| `TaskQueues.TaskQueue.Enqueue` | src/thread/task.c:42-57 | the task goes last, or nothing changes exactly when the queue is full |
| `TaskQueues.TaskQueue.EnqueueMany` | src/thread/task.c:59-78 | all tasks last and in order, or nothing changes exactly when they do not all fit |
| `TaskQueues.TaskQueue.Dequeue` | src/thread/task.c:80-92 | the slot of the oldest value, which leaves the queue |
| `TaskQueues.FirstInFirstOut` | src/thread/task.c:42-92 | over any run, what was there and what was accepted is, in order, what was taken and what is left |
| `TaskQueues.AcceptedExactly` | src/thread/task.c:42-78 | what a run accepts is the arguments, in order, of exactly the operations that find room, told from the queue's length alone |
| `TaskQueues.TaskQueue.Serve` | src/thread/task.c:42-92 | any sequence of calls of the queue: what was there and those arguments, in order, is what the calls handed out and what is left |
| `Rings.Ring.Construct` | src/containers/ring.c:5-28 | accepts exactly powers of two with a non-zero item size, and begins empty |
| `Rings.Ring.Enqueue` | src/containers/ring.c:36-45 | the slot handed out is the write index modulo the capacity; it becomes the newest item, the others keep theirs, also when windex wraps |
| `Rings.Ring.Dequeue` | src/containers/ring.c:47-57 | the slot of the oldest item, count slots before the write index, or none exactly when the ring is empty |
| `Rings.SteppedKeepsSlots` | src/containers/ring.c:38-39 | the wrap of the 32-bit write index moves no item |
| `Rings.SlotsDiffer` | src/containers/ring.c:38 | items of a ring never share a slot |
| `Rings.WrapIsHarmlessExactly` | src/containers/ring.c:6-8 | the wrap keeps slots consecutive if and only if the capacity divides 2^32 |
| `FileDescriptors.Initialize` | src/file/file.c:17-26 | every node is followed by the node after it and the last by none |
| `FileDescriptors.StepKeepsInv` | src/file/file.c:28-63 | every step, pops serialised, keeps each descriptor in exactly one place and what a pop has read true, also beside a thread that found the list empty |
| `FileDescriptors.SerialRunsNeverShare` | src/file/file.c:28-74 | in any run with serialised pops and any number of releasers, the list is acyclic and each descriptor is on it, with a caller, or in one thread's hands, never in two of them |
| `FileDescriptors.SerialPopTakesSuccessor` | src/file/file.c:54-63 | the successor a pop is about to install is the true one |
| `FileDescriptors.PopKeepsPartitionExactly` | src/file/file.c:54-63 | a successful swap keeps the descriptors in one place if and only if the successor is still the one in the node |
| `FileDescriptors.LimitMeansAllOut` | src/file/file.c:46-63 | after any serial run, a thread at the test of the loop reports the resource limit, and does not read the node, if and only if every descriptor was with a caller or in a hand when it loaded the head last, on entry or after a failed compare-exchange |
| `FileDescriptors.LimitNeedsLoad` | src/file/file.c:49-52 | no thread but one that has loaded NULL can report the limit, and that changes nothing |
| `FileDescriptors.OpenUndisturbed` | src/file/file.c:45-65 | on its own, and however often its compare-exchange fails, opening takes the head off the list, or gives up and changes nothing exactly when there is none |
| `FileDescriptors.ReleaseUndisturbed` | src/file/file.c:28-43 | on its own, and however often its compare-exchange fails, a release puts the descriptor in front |
| `FileDescriptors.CallsGoOn` | src/file/file.c:28-79 | after any serial run, a thread in the middle of a call can always take its next step |
| `FileDescriptors.OpenThenClose` | src/file/file.c:45-79 | opening and closing again restores the list |
| `FileDescriptors.OneNeverBreaks` | src/file/file.c:28-63 | with a single descriptor any number of threads may be in the loop |
| `FileDescriptors.EnteringBesideExact` | src/file/file.c:46-63 | after any serial run, a second thread entering the loop beside another can be followed by an otherwise serial run that loses or shares a descriptor if and only if the other has a node and there are at least two descriptors |
| `FileDescriptors.StaleSwapSharesDescriptor` | src/file/file.c:46-63 | two descriptors, two threads and one event after which that is so |
| `BumpStack.ReservedCovers` | src/memory/stack.c:45-49 | what a call takes: the size, with alignment - 1 bytes of slack above the default alignment |
| `BumpStack.SlackHoldsAligned` | src/memory/stack.c:45-49 | the slack is enough for an aligned stretch of the size |
| `BumpStack.StepKeepsInv` | src/memory/stack.c:51-73 | every atomic step of any thread keeps the invariant |
| `BumpStack.AnyInterleaving` | src/memory/stack.c:45-76 | in any interleaving the ranges are pairwise disjoint, everything below the committed top is committed, each range is committed when its call returns although its swap may have lost, and nothing outside the reservation or past the top is |
| `BumpStack.SwapAdvances` | src/memory/stack.c:62-72 | a won compare-exchange moves the committed top to the end of the range; a lost one means another call has moved it past what this one saw |
| `BumpStack.TrapsExactly` | src/memory/stack.c:56-57 | a thread traps if and only if one of its commits fails |
| `BumpStack.TrapTouchesNothing` | src/memory/stack.c:56-57 | a failed commit changes no shared variable and is the thread's last step |
| `BumpStack.CallAlone` | src/memory/stack.c:38-76 | an uninterrupted call returns the old top, moves both tops to where they belong and commits just what was missing |
| `BumpStack.NeverUncommits` | src/memory/stack.c:62-72 | the committed top never decreases and no byte loses its commitment |
| `HashMaps.SlotIsMod` | src/containers/map.c:82-86 | the probed slot is the hash plus the step, modulo the capacity, also when the 64-bit sum wraps |
| `HashMaps.WindowSlotsDiffer` | src/containers/map.c:84-86 | a window of a table with at least sixteen slots has sixteen different ones |
| `HashMaps.SmallTableIsOneWindow` | src/containers/map.c:84-86 | the window of a smaller table is the whole table |
| `HashMaps.Map.Construct` | src/containers/map.c:6-65 | accepts exactly powers of two, and begins as the empty map |
| `HashMaps.Map.GetIndex` | src/containers/map.c:77-96 | the key's slot, or UINT32_MAX exactly when the map does not hold the key |
| `HashMaps.Map.FindEmpty` | src/containers/map.c:130-147 | the empty slot of the key's window that is nearest to where the hash points, or UINT32_MAX exactly when there is none |
| `HashMaps.Map.Get` | src/containers/map.c:98-112 | the value of the finite map at the key |
| `HashMaps.Map.Set` | src/containers/map.c:210-249 | the finite map updated at the key; full exactly when the key is new and none of the sixteen slots from where the hash points is empty, which takes at least sixteen keys, or as many as a smaller table has slots; then nothing changes |
| `HashMaps.Map.RoomInWindow` | src/containers/map.c:130-147 | a key has room exactly when a slot less than sixteen from where its hash points is empty, and a map without room for some key holds sixteen keys or fills a smaller table |
| `HashMaps.SixteenCollide` | src/containers/map.c:210-249 | in a table of 32 slots, sixteen keys of one hash find room and the seventeenth gets full |
| `HashMaps.Map.Remove` | src/containers/map.c:251-265 | the finite map without the key, no tombstone needed |
| `HashMaps.NoRoomMeansCrowded` | src/containers/map.c:235-248 | a key without room finds sixteen different keys in its window, or a smaller table entirely full |
| `Coroutines.Scheduler.Schedule` | src/coroutine.c:41-57 | a new coroutine starts last with status 0, or none when 1024 are there |
| `Coroutines.Scheduler.Execute` | src/coroutine.c:59-63 | one call of the handler; its result becomes the status, and what it scheduled meanwhile follows the others |
| `Coroutines.FittingIsPrefix` | src/coroutine.c:49-56 | of the coroutines that a handler schedules, as many as fit find a slot, in order and with the initial status |
| `Coroutines.Scheduler.Remove` | src/coroutine.c:5-7 | the last coroutine takes the slot |
| `Coroutines.AfterCall` | src/coroutine.c:14-18 | slots from the called one on, with and without the removal, hold the same coroutines but for the called one |
| `Coroutines.Scheduler.RunOnce` | src/coroutine.c:13-19 | each coroutine present at entry is called exactly once, from last to first, with its status at entry; afterwards exactly the uncompleted and the newly scheduled ones are left, with the status their call returned |
| `Coroutines.RoundLowersRanks` | src/coroutine.c:13-25 | if every call, with a status its coroutine can have where it is, brings the coroutine closer to completion and schedules only such as have fewer rounds ahead, a round leaves only coroutines with fewer rounds ahead |
| `Coroutines.Scheduler.Loop` | src/coroutine.c:21-25 | then the loop ends with an empty scheduler, after at most one round more than any coroutine has ahead, with all that it schedules in turn |
| `IndexedPools.FindBlockOffset` | src/containers/indexed-pool.c:58-66 | the lowest clear bit of a word, or UINT_MAX exactly for a full word |
| `IndexedPools.OneItem` | src/containers/indexed-pool.c:77 | one bit of one word stands for one item |
| `IndexedPools.Pool.TryAcquire` | src/containers/indexed-pool.c:68-81 | the lowest free item of the word, or UINT32_MAX exactly when it is full |
| `IndexedPools.Pool.Acquire` | src/containers/indexed-pool.c:83-106 | the first free index from the word last used, round the end, added to the outstanding ones; UINT32_MAX exactly when all are out, wherever the search starts |
| `IndexedPools.Pool.Release` | src/containers/indexed-pool.c:108-120 | returns 0 exactly for an outstanding item and 3 otherwise, and removes just that one |
| `IndexedPools.MaskedOffset` | src/containers/indexed-pool.c:112 | when the masked offset is the bit number, and that it is modulo 64 |
| `IndexedPools.Pool.Resize` | src/containers/indexed-pool.c:122-155 | every outstanding index below the new count stays out and nothing else is; errors change nothing |
| `IndexedPools.Pool.Construct` | src/containers/indexed-pool.c:21-47 | accepts exactly multiples of 64, and begins with nothing outstanding |

## Left out

- Decommit trimming in `ms_heap_free` (src/memory/heap.c:166-176): it reduces the committed size twice. Heaps here are at most `MS_HEAP_DEALLOC_THR` bytes, so it never fires.
- Freeing empty nodes of a non-sticky arena and clearing one (src/memory/arena.c:173-181, 222-229): they cut the chain instead of unlinking a node.
- `ms_arena_realloc` (src/memory/arena.c:190-212): it compares and copies by the chunk size, header and padding included.
- `ms_map_resize` (src/containers/map.c:149-208): it reads and clears the old tables and does not probe, so it does not keep bindings. The growth factor is 0.
- `ms_stack_clear` (src/memory/stack.c:78-94) racing with malloc, and the alignment of stack results: the code reserves the slack but does not align the pointer.
- Builds without assertions: there, a failed `ms_commit` in the stack or in the heap is not noticed.
- Weak memory orders, threads, locks, sleeping, and the request to join in the worker loop.
- Operating-system memory, file backends, logging, plugins, compression and hashing: foreign code.
- `bit-array.c`, `config.c` and `uri.c` have no clean general property as written; `pool.c`, `paged-array.c`, `sparse-paged-array.c`, `auto-array.c` and `path.c` of the containers would only add easier members.
- FreeLists.FreeList.CreateNode: node records are values in a map from addresses, updated field by field, not objects of their own.
- Heaps.Heap.CopyOut: payload bytes are a sequence that is replaced, not an array; a copy is a slice of it.
- Heaps.Heap.Malloc: takes requests whose rounded size fits in a word. The bytes of a fresh payload are not specified, but for the size word in front of it.
- FreeLists.FreeList.Malloc: takes requests whose rounded size is at least a node record, which only a wrap in 64 bits can violate; `FreeLists.NodeSizeExact` says that a wrapping request gets less than it asked for, and `FreeLists.WrappedRequest` what becomes of one that wraps to 0.
- FreeLists.Watermark.Commit: commits that succeed; a failing one ends in `ms_fatal`, which stops the program before anything else is written.
- Regions.Region.Free: takes a payload whose size word is harmless, the exact condition of `FreeLists.FreeAsCodedExact`. Node records are kept apart from payload bytes: what a header leaves of a size word is `Regions.WordUnderHeader`, what a client leaves is the arbitrary record of `Regions.Region.Scribble`.
- Regions.Region.WriteHeader: what the header does to the size word is stated for multiples of 8 and a machine that stores the lowest byte first.
- Heaps.Heap.Free: takes a pointer inside the heap only if it is a live payload, as the source trusts its callers, and a heap of at most `MS_HEAP_DEALLOC_THR` bytes; headers are a map from payload pointers, not bytes.
- Heaps.Heap.Realloc: takes a payload that must move only if it can be freed once the new chunk is taken, the exact condition of `FreeLists.FreeAsCodedExact` at that moment. The commit mark need not cover a payload that grows in place; `Heaps.Heap.GrowthCoveredExactly` says when it does.
- Arenas.Arena.Malloc: the backing allocator succeeds, as the source assumes, the node size does not wrap in 64 bits (`Arenas.WrappedNodeFails` is what happens otherwise), and base sizes are powers of two from 16 on, so that a new node can hold a node record.
- Arenas.Arena.Free: takes a live payload whose size word is intact, the exact condition of `Arenas.AccountingExact`; `SizeWords.AccountingSpoiled` is a node where it is not.
- TaskPool.RunIsSafe: one dispatch a task, parents not after their count reached zero, and at most as many tasks as the queue has slots, so that no slot is reused while a worker still reads it. `TaskPool.DispatchExact` says which dispatches are outside this.
- FileDescriptors.SerialRunsNeverShare: at most one thread is in the loop of `ms_fopen` at a time. `FileDescriptors.EnteringBesideExact` says when a second one does harm. The contents of the files are not part of this model.
- BumpStack.AnyInterleaving: addresses do not wrap, and an alignment is at least 1.
- HashMaps.Map.Set: keys are compared by equality, and the value that stands for no key is not used as a key; table sizes in bytes do not wrap.
- TaskQueues.TaskQueue.EnqueueMany: the lock makes each operation one step; the tasks are given as a sequence.
- Coroutines.Scheduler.Loop: only where coroutines and what they schedule finish, by a measure that each call lowers; otherwise the loop of the source need not end.
- Coroutines.Scheduler.Execute: a handler is a function of the world, its context and its status; what it schedules is appended when it returns, and it does not run the scheduler itself.
- IndexedPools.Pool.Release: the shift takes its count modulo 64, which C leaves undefined, and the item is below the count, which the source does not check.
