# Verified model of the HIK kernel's core data structures

HIK is a kernel in three layers: Core-0 (physical frames, page tables, capabilities), Core-1
(services with their own heap, regions and IPC rings) and Core-3 (applications with a virtual heap),
started by a UEFI loader that checks images with SHA-384. This project models the five components
whose state is deepest and proves what they promise.

| module | what it models |
|---|---|
| `Frames` | Core-0's frame table and its contiguous left-to-right scan |
| `PageTables`, `Isolation`, `AccessCheck` | four-level page tables built on demand over those frames, against flat page maps, and against the address translation of the Intel SDM, volume 3A, sections 4.5 and 4.6; when the access check is right |
| `HeapBlocks`, `HeapHeaders`, `HeapCheck`, `Heap`, `HeapRuns` | the split-and-coalesce heap of Core-1 and Core-3: tilings, packed headers, the integrity check, the linked list in the bytes of the heap, and whole runs with the bytes clients store |
| `Ring`, `RingSteps` | Core-1's single-producer single-consumer ring: as a FIFO for one caller, and as interleaved steps of a writer and a reader |
| `Primes`, `Sha384Constants`, `Sha384Spec`, `Sha384` | the first eighty primes and the constants taken from them, FIPS 180-4, and the loader's streaming code |
| `Capability` | Core-0's capability table and the capability spaces of domains |
| `Regions` | a service's region table |
| `MachineInts`, `Sequences` | C's unsigned arithmetic and bit operators on numbers; closing a gap in a table |

Where the source updates state in place there is a class with the same fields and methods, each
tied by its `ensures` to a function or relation on values; the lemmas about those values are the
theorems. `Valid()` of a class is an invariant: the constructor or the initialising method establishes
it (`Heap.Init` and `Sha384Ctx.Init`), and each method that requires it keeps it or states the exact
condition under which it does, save that `Sha384Ctx.Final` uses the context up. For the region table
`Valid()` only bounds the array; the invariants of its contents, `Disjoint`, `NoSharedByte` and
`Consistent`, have exact conditions of their own.

`dafny verify dfyconfig.toml` checks everything.

## Where the code does less than its purpose

Each of these is proved with the exact condition under which the code does meet the purpose.

- The frame scan can step over an aligned fit. On tables of at most 131072 frames it never does
  exactly for one-page requests, alignments of one page, and requests too long for any aligned start
  but frame 0 (`Frames.ScanCompleteIff`, examples `Frames.MissedFit`, `Frames.AlignedFitCanBeMissed`).
- `isolation_verify_access` of Core-0 looks at one page per 4096 bytes of size, counted from the
  given address, so an unaligned range can end in a page it never looked at; a size above
  2^64 - 4096 wraps when rounded up and passes with no page looked at. Over all states of the tables,
  the check agrees with the hardware exactly for ranges that the pages looked at cover, and for ranges
  that need more tables than the machine has frames, which it always refuses
  (`AccessCheck.VerdictIsExactIff`, examples `AccessCheck.MissedInState`, `AccessCheck.PassesAndFaults`,
  `Isolation.HugeSizePasses`).
- `isolation_destroy_page_tables` frees the root table only. That gives back the whole tree exactly
  when no entry of the root is present (`PageTables.RootFreesTreeIff`, example
  `PageTables.DestroyCanLeak`).
- While frame 0 is available no page table can be allocated: the scan finds it first, and its address
  reads as failure. A mapping succeeds exactly when every missing table can be had
  (`Isolation.IsolationState.AllocTable`, `Isolation.IsolationState.MapMemory`, example
  `Isolation.FrameZeroBlocksTables`).
- `Sha384Update` adds `Len >> 29` to the high count word, which is the right carry exactly for
  updates below 2^29 bytes (`Sha384.CountStaysExactIff`, example `Sha384.CountGoesWrong`).
- `cap_create` counts a reference even when the owner is missing or full
  (`Capability.RefCountStaysExactIff`, example `Capability.CountOfOrphanIsWrong`).
- `cap_grant` returns a valid, grantable handle even when the target is missing or full and nothing
  was entered (`Capability.GrantReportsTrulyIff`, example `Capability.GrantToNobody`).
- `cap_create` and `cap_grant` accept domain id 0, which names the first free slot, and enter the handle
  there (`Capability.CreateKeeps`, `Capability.GrantKeeps`); the next domain created in the slot clears it
  and leaves a count without a place (example `Capability.FreeSlotTakesHandle`).
- Core-1's region table accepts an empty region, which its own validator then rejects
  (`Regions.AddKeepsConsistentIff`, `Regions.AddKeepsDisjointIff`, example
  `Regions.EmptyRegionIsAccepted`).
- Core-1's region table accepts a region that shares bytes with another when one of them ends at 2^64 or
  wraps past it (`Regions.UnnoticedIff`, `Regions.AddKeepsApartIff`, example `Regions.LastPageTwice`).
- Core-1's region check is wrong for ranges that wrap past 2^64 and depends on region order for
  empty ranges between two regions (`Regions.VerdictIsExactIff`, examples `Regions.WrappingRange`,
  `Regions.RangeBetween`).
- The heap's integrity check accepts a list that ends before the heap does, and a first block with a
  back link (`HeapCheck.CheckIsExactIff`, examples `HeapCheck.ShortListIsAccepted`,
  `HeapCheck.FirstBackLinkIsAccepted`).
- A heap request within 31 bytes of 2^64 wraps to a block smaller than the request
  (`Heap.TotalSizeFitsIff`). From 2^64 - 31 to 2^64 - 8 the block would be smaller than its own
  header, and unless the free block found is too small to be cut, one such request breaks the list
  (`Heap.AllocKeepsHeapIff`, example `Heap.HugeRequestBreaksHeap`; in the bytes of the heap,
  `HeapCheck.SmallSizeBreaksList`).
- `realloc` can get a new block smaller than the old one when the request wraps, and then copies the old
  payload past its end (`Heap.MoveSafeIff`, `Heap.UnsafeMoveOverruns`, example `Heap.HugeReallocOverruns`).

## Model

| member | source | states |
|---|---|---|
| `Frames.FrameAllocator.constructor` | Core-0/mm/mm.c:28-43 | every frame starts out reserved while the available counter already shows all of them |
| `Frames.FrameAllocator.Alloc` | Core-0/mm/mm.c:48-94 | stops at the lowest position the scan can reach that is long enough and aligned, marks exactly those frames, and fails exactly when there is no such position, changing nothing |
| `Frames.FrameAllocator.MarkLoop` | Core-0/mm/mm.c:70-73 | the inner loop writes the n frame records and no other |
| `Frames.FrameAllocator.Free` | Core-0/mm/mm.c:99-119 | releases one frame whatever was allocated together with it; refuses addresses beyond the table |
| `Frames.PagesForIs` | Core-0/mm/mm.c:51-53 | the page count is the least that holds the bytes, and 0 for sizes above 2^64 - 4096, where the sum wraps |
| `Frames.ScanStartMeaning` | Core-0/mm/mm.c:59-86 | the scan starts counting exactly at whole n-frame steps into a stretch of available frames |
| `Frames.StartsAreApart` | Core-0/mm/mm.c:59-86 | two counting positions in one stretch are at least n frames apart |
| `Frames.ScanStep` | Core-0/mm/mm.c:59-86 | one turn of the loop keeps "no reachable fit lies behind" in all four cases |
| `Frames.LowestFit` | Core-0/mm/mm.c:48-94 | without an alignment demand the scan finds the lowest fit whenever there is one |
| `Frames.ScanCompleteIff` | Core-0/mm/mm.c:66-84 | no table the machine can have makes the scan miss an aligned fit, if and only if one page is asked for, or no alignment above a page, or so many pages that only frame 0 can start them |
| `Frames.OnePageIsLowest` | Core-0/mm/mm.c:59-80 | a one-page request takes the lowest available frame |
| `Frames.MissedFit` | Core-0/mm/mm.c:82-84 | for all other requests, a table of align + n frames with an aligned fit that the scan misses |
| `Frames.AlignedFitCanBeMissed` | Core-0/mm/mm.c:82-84 | the smallest such table, written out |
| `PageTables.IndexIs` | Core-0/include/isolation.h:85-88 | the four index macros are digits of the address in base 512 |
| `PageTables.PageIsPath` | Core-0/include/isolation.h:85-88 | the four indices together are the page number, bits 47 to 12, so paths and pages correspond |
| `PageTables.LinkRoundTrip` | Core-0/isolation/isolation.c:302-335 | a link written on demand decodes to the table it was made from, with every right and no large page |
| `PageTables.LeafRoundTrip` | Core-0/isolation/isolation.c:268-289 | a leaf decodes to its frame and to exactly the rights of its mapping type |
| `PageTables.LeafValue` | Core-0/isolation/isolation.c:268-289 | the number stored in a leaf for each mapping type: the frame plus 5, 7, 5, 27, 7, or 1 for an unknown type |
| `PageTables.WalkStaysOnPath` | Core-0/isolation/isolation.c:129-201 | in the forest a walk visits only tables placed on its own path, in its own domain |
| `PageTables.NoTableIsShared` | Core-0/isolation/isolation.c:51-343 | a table reached by two walks is reached in the same domain, level and path |
| `PageTables.OtherWalksStay` | Core-0/isolation/isolation.c:98-102 | writing one entry changes no walk that does not go through it, in any domain |
| `PageTables.StoreLeaf` | Core-0/isolation/isolation.c:337-339 | storing a leaf keeps the forest and changes the walks of one page of one domain |
| `PageTables.LinkTable` | Core-0/isolation/isolation.c:302-335 | linking an empty table keeps the forest and changes no walk at all |
| `PageTables.PlantRoot` | Core-0/isolation/isolation.c:206-224 | a new root is an empty address space and leaves every other domain's walks alone |
| `PageTables.UprootDomain` | Core-0/isolation/isolation.c:229-248 | freeing a root keeps the trees of all other domains |
| `PageTables.RootFreesTreeIff` | Core-0/isolation/isolation.c:229-248 | freeing the root leaves no frame of the tree taken if and only if no root entry is present |
| `PageTables.DestroyCanLeak` | Core-0/isolation/isolation.c:240-242 | the smallest leak: a root with one child |
| `PageTables.LinkAddsOneTable` | Core-0/isolation/isolation.c:302-335 | a new link adds one table, at its level, to the walks of its prefix, and moves no other, of this domain or another |
| `PageTables.StoreKeepsTables` | Core-0/isolation/isolation.c:337-339 | storing a leaf moves no table of any domain |
| `PageTables.ForestSurvivesFrameChange` | Core-0/mm/mm.c:59-80 | the forest stands under any change of frame records that leaves the frames of its tables taken |
| `PageTables.UnownedTable` | Core-0/isolation/isolation.c:129-201 | the forest and all walks stand under any change of memory outside the tables |
| `PageTables.HardwareAgrees` | Core-0/isolation/isolation.c:304-339 | the rights ANDed over all four levels are those of the leaf alone, and no large page ends the walk |
| `Isolation.IsolationState.constructor` | Core-0/isolation/isolation.c:36-46 | starts with no domain mapped, forest and flat maps in agreement |
| `Isolation.IsolationState.AllocTable` | Core-0/isolation/isolation.c:51-61 | a zeroed table no tree uses yet, in the lowest available frame and no other; 0 exactly when no frame is available or frame 0 is, and then frame 0 is lost if it was available, and nothing else |
| `Isolation.IsolationState.EnsureTable` | Core-0/isolation/isolation.c:302-335 | get-or-create yields the table the walk then visits, takes one frame exactly when there was none, fails exactly when one is needed and none can be had, changes no domain's map, and leaves as many frames spare beyond the missing tables as before |
| `Isolation.IsolationState.MapPage` | Core-0/isolation/isolation.c:295-340 | one page added to the flat map, or none at all when tables run out half way; the frames taken are those of the tables added, and none but the lost frame 0 otherwise |
| `Isolation.IsolationState.SetLeaf` | Core-0/isolation/isolation.c:98-102 | the write of a leaf is an update of the flat map at one page, and moves no table of any domain |
| `Isolation.IsolationState.MapMemory` | Core-0/isolation/isolation.c:253-343 | the flat map after a call: all pages, or exactly the first `done` pages when frames run out. Success exactly when nothing is missing, or frame 0 is not available and the distinct missing tables are at most as many as the available frames; it then takes exactly as many frames as tables were missing, namely the lowest ones, and those are the frames of the new tables. On failure the tables of the first `done` pages could be had and those of one page more could not; either only frame 0 was lost, or no frame is left and those taken are the frames of new tables. No table moves, and no walk of another domain finds anything different |
| `Isolation.IsolationState.UnmapMemory` | Core-0/isolation/isolation.c:348-384 | the flat map loses exactly the pages of the range; no table of any domain is created, freed or moved; no walk of any other domain finds anything different |
| `Isolation.IsolationState.CreatePageTables` | Core-0/isolation/isolation.c:206-224 | an empty map for the domain in one newly taken frame, the lowest available one, whose zeroing is all that changes in memory, exactly when a table can be had; or failure with nothing changed but frame 0 lost if it was available |
| `Isolation.IsolationState.DestroyPageTables` | Core-0/isolation/isolation.c:229-248 | the domain is gone, exactly its root frame is available again, all other maps stand; the whole tree is given back if and only if the root was empty |
| `Isolation.IsolationState.VerifyAccess` | Core-0/isolation/isolation.c:389-422 | 0 exactly when the flat map allows the access on every page looked at; for covered ranges, exactly when the hardware grants every byte |
| `Isolation.MapPagesMeaning` | Core-0/isolation/isolation.c:294-340 | mapping up to 2^36 pages sets each page of the range to its own frame, and nothing else, even when addresses wrap |
| `Isolation.UnmapPagesMeaning` | Core-0/isolation/isolation.c:362-380 | unmapping clears exactly the pages of the range |
| `Isolation.UnmapUndoesMap` | Core-0/isolation/isolation.c:253-384 | after mapping and unmapping a range, the map is as if it had only been unmapped |
| `Isolation.PageOfPageAddr` | Core-0/isolation/isolation.c:295 | page i of a range is i pages on from the first, modulo the 2^36 pages of the address space |
| `Isolation.HardwareSeesFlatMap` | Core-0/isolation/isolation.c:183-343 | the hardware translates every address of every domain as the flat map says |
| `Isolation.CheckIsWhatHardwareGrants` | Core-0/isolation/isolation.c:389-422 | a page passes the software check exactly when the hardware grants the access |
| `Isolation.TableCreated` | Core-0/isolation/isolation.c:302-335 | each table created is one less missing in one frame less available, so whether frames suffice is settled before the first page |
| `Isolation.GrowthStep` | Core-0/isolation/isolation.c:302-335 | one table created, in the lowest frame: for every number of pages it lies among, the frames spare beyond the missing tables are as many as before, and the frame changed is that of the new table |
| `Isolation.GrownTwice` | Core-0/isolation/isolation.c:294-340 | two such growths in a row are one: the frames taken by both are exactly those of the tables that are new since the beginning |
| `Isolation.GrownOutMeaning` | Core-0/isolation/isolation.c:302-335 | what is left when a table could not be had: frame 0 lost and nothing else, or no frame available and every frame taken holding a new table |
| `Isolation.TableNotToBeHad` | Core-0/isolation/isolation.c:302-335 | a table missing when none can be had means frames never sufficed |
| `Isolation.FrameZeroBlocksTables` | Core-0/isolation/isolation.c:51-55 | a forest with its root in frame 1, four available frames and at most three tables missing, of which none can be had because frame 0 is available |
| `Isolation.IsolationState.FreeFrame` | Core-0/mm/mm.c:99-119 | another user's free of a frame without a table keeps every map and walk |
| `Isolation.IsolationState.TakeFrames` | Core-0/mm/mm.c:48-94 | another user's allocation takes only available frames and keeps every map and walk |
| `Isolation.CheckIsHardwareForCoveredRange` | Core-0/isolation/isolation.c:389-422 | for a covered range the check passes if and only if the hardware grants the access to every byte |
| `Isolation.HugeSizePasses` | Core-0/isolation/isolation.c:400-401 | sizes above 2^64 - 4096 pass on every map, even an empty one |
| `AccessCheck.VerdictIsExactIff` | Core-0/isolation/isolation.c:389-422 | in every state and for every domain with a root, the check passes exactly when the hardware grants every byte, if and only if the pages looked at cover the range or it needs more tables than the machine has frames |
| `AccessCheck.PassingFits` | Core-0/isolation/isolation.c:389-422 | a range that passes has all its tables, each in a frame of its own, so the machine has that many |
| `AccessCheck.MissedInState` | Core-0/isolation/isolation.c:400-401 | for every other range, a state in which it passes and the hardware refuses its last byte |
| `AccessCheck.PassesAndFaults` | Core-0/isolation/isolation.c:206-422 | the same reached from boot by creating an address space, mapping the pages looked at, and checking |
| `AccessCheck.GrowRange` | Core-0/isolation/isolation.c:294-340 | whenever the missing tables can be had, there is a state with the range mapped |
| `Isolation.MissedPage` | Core-0/isolation/isolation.c:400-401 | when just the pages looked at are mapped, an uncovered range passes and its last byte is not allowed |
| `HeapBlocks.UniqueTiling` | Core-1/mm/physical_mem.c:54-145 | the set of used blocks determines the whole block list |
| `HeapBlocks.AllocKeepsCanonical` | Core-1/mm/physical_mem.c:84-102 | allocation keeps the heap tiled with no two free neighbours, unless it cuts a block inside its own header |
| `HeapBlocks.AllocStaysCanonicalIff` | Core-1/mm/physical_mem.c:84-102 | it does so if and only if the cut is safe |
| `HeapBlocks.AllocIs` | Core-1/mm/physical_mem.c:84-102 | the list after taking a block, written out: a remainder of less than 33 bytes is never split off, a larger one always is |
| `HeapBlocks.AllocAddsOneBlock` | Core-1/mm/physical_mem.c:84-102 | one used block more, of the asked size, or of the whole free block when less than 33 bytes would have been left; every other used block stays |
| `HeapBlocks.FreeRemovesOneBlock` | Core-1/mm/physical_mem.c:111-145 | one used block less, and both neighbours merged so that no two free blocks touch |
| `HeapBlocks.FreeUndoesAlloc` | Core-1/mm/physical_mem.c:54-145 | freeing right after allocating restores the list, split or not |
| `HeapBlocks.RunKeepsCanonical` | Core-1/mm/physical_mem.c:54-145 | every run of allocations and frees keeps the tiling |
| `HeapBlocks.HistoryDoesNotMatter` | Core-1/mm/physical_mem.c:54-145 | two runs that leave the same blocks in use leave the same list |
| `HeapBlocks.FreeOrderDoesNotMatter` | Core-1/mm/physical_mem.c:111-145 | a set of live blocks may be freed in any order: every order is legal and all end in the same list |
| `HeapBlocks.FreesAreLegalIff` | Core-1/mm/physical_mem.c:111-145 | a list of frees is legal step by step if and only if its addresses are live at the start and distinct |
| `HeapBlocks.FreeingAllRestoresHeap` | Core-1/mm/physical_mem.c:37-43 | freeing everything that is live, in any order, is legal and leaves the single initial block |
| `HeapBlocks.FirstFitIsLowestStretch` | Core-1/mm/physical_mem.c:67-82 | failure exactly when no stretch of unused bytes is long enough anywhere; otherwise the lowest one is taken |
| `HeapBlocks.PayloadsAreDisjoint` | Core-1/mm/physical_mem.c:104-107 | no payload byte belongs to another payload or to any header |
| `HeapBlocks.BytesAddUp` | Core-1/mm/physical_mem.c:148-171 | used and free bytes add up to the heap |
| `HeapBlocks.MarkMovesBytes` | Core-3/mm/virtual_mem.c:108-112 | marking a free block as used adds its size to the used bytes |
| `HeapHeaders.HeaderRoundTrip` | Core-1/include/physical_mem.h:28-33 | a header survives its 25-byte packed form |
| `HeapHeaders.HeaderLayout` | Core-1/include/physical_mem.h:28-33 | size from byte 0, used at 8, next from 9 and prev from 17, every number with its lowest byte first |
| `HeapHeaders.StoreEffect` | Core-1/include/physical_mem.h:28-33 | a stored header reads back and no byte outside it changes |
| `HeapHeaders.MarkRelinks` | Core-1/mm/physical_mem.c:101-102 | the used flag is the only thing that changes in the list |
| `HeapHeaders.SplitRelinks` | Core-1/mm/physical_mem.c:85-99 | the stores of a split link the list of the split tiling in both directions and touch no used payload |
| `HeapHeaders.MergeRelinks` | Core-1/mm/physical_mem.c:124-142 | the stores of a merge link the list of the merged tiling in both directions and touch no used payload |
| `HeapHeaders.PayloadWrite` | Core-3/mm/virtual_mem.c:273-274 | a client that writes inside its payload disturbs no header and no other payload |
| `Heap.TotalSizeFitsIff` | Core-1/mm/physical_mem.c:59-63 | rounding and header give a large enough block exactly for requests up to 2^64 - 32 |
| `Heap.TotalSizeIs` | Core-1/mm/physical_mem.c:59-63 | the wrapped size in all three ranges of requests |
| `Heap.AllocKeepsHeapIff` | Core-1/mm/physical_mem.c:59-102 | for all requests that find a block, the list stays whole if and only if the request is at most 2^64 - 32, or above 2^64 - 8, or the block found is too small to be cut |
| `Heap.HugeRequestBreaksHeap` | Core-1/mm/physical_mem.c:59-102 | 2^64 - 31 bytes asked of a fresh heap of 100: a block of one byte |
| `Heap.MoveSafeIff` | Core-3/mm/virtual_mem.c:265-274 | for a moving request that finds a block, the old payload fits in the new one if and only if the request does not wrap, or the block found is taken whole and is as large, or the old block holds nothing and the rounding itself wraps |
| `Heap.UnsafeMoveOverruns` | Core-3/mm/virtual_mem.c:273-274 | otherwise the copy goes past the end of the new block |
| `Heap.HugeReallocOverruns` | Core-3/mm/virtual_mem.c:265-274 | 2^64 - 1 bytes asked for a block of 50 in a heap of 200: 56 bytes copied into a block without payload |
| `Heap.SmallRequestsAreSafe` | Core-3/mm/virtual_mem.c:61-72 | requests up to 2^64 - 32 are safe to allocate and to move on every heap |
| `HeapRuns.Do` | Core-3/mm/virtual_mem.c:61-280 | allocation, free, reallocation and a client's store are steps that keep, drop, add or move exactly one payload |
| `HeapRuns.RunHolds` | Core-3/mm/virtual_mem.c:61-280 | in every run of these, every live payload holds what was last put there, wherever the block has moved |
| `HeapRuns.StepHolds` | Core-3/mm/virtual_mem.c:61-280 | one step of it |
| `Heap.Heap.Init` | Core-3/mm/virtual_mem.c:34-53 | one free block over the region, or refusal without a write |
| `Heap.Heap.FindFirstFit` | Core-1/mm/physical_mem.c:67-77 | the walk along the links finds the first free block that fits |
| `Heap.Heap.SplitBlock` | Core-1/mm/physical_mem.c:85-99 | the pointer updates refine the split of the tiling |
| `Heap.Heap.Absorb` | Core-1/mm/physical_mem.c:124-142 | the pointer updates refine the merge of two tiles |
| `Heap.Heap.Alloc` | Core-3/mm/virtual_mem.c:61-116 | the new block list is first fit on the old one; 0 exactly on size 0 or when nothing fits, and then nothing changes; live payloads keep their bytes; the used counter stays exact; for every request that does not break the list. The client gets the lowest stretch of unused bytes long enough, with a payload of at least the request and at most 39 bytes more, cut from its free block unless less than 33 bytes would have been left, and 0 exactly when there is none |
| `Heap.Heap.Free` | Core-3/mm/virtual_mem.c:119-154 | the block list loses the block and is merged; live payloads keep their bytes; the used counter stays exact |
| `Heap.Heap.WalkStats` | Core-1/mm/physical_mem.c:148-171 | total is the heap size and is used plus free; the walked sum equals the cached counter |
| `Heap.Heap.CachedStats` | Core-3/mm/virtual_mem.c:179-187 | the constant-time figures equal the sums over the blocks |
| `Heap.Heap.Validate` | Core-1/mm/physical_mem.c:174-216 | on a heap of any contents whose links can be followed, the code of the first failing test, else 0, as `HeapCheck.AnswerMeaning` and `HeapCheck.AcceptedIff` spell out; 0 in every reachable state |
| `HeapCheck.LinkedIsAccepted` | Core-1/mm/physical_mem.c:174-216 | the check accepts the list of every tiling |
| `HeapCheck.AcceptedIsChain` | Core-1/mm/physical_mem.c:174-216 | what the check accepts is a tiling of a part of the heap, linked both ways but for the first back link |
| `HeapCheck.AcceptedIff` | Core-1/mm/physical_mem.c:174-216 | the check returns 0 if and only if a list of blocks from the base on, each at least a header long, adjacent, linked both ways and ending within the heap, stands there, and its first back link is NULL or leads to a header that links forward to the first block |
| `HeapCheck.AnswerMeaning` | Core-1/mm/physical_mem.c:178-214 | for every return code, the block that fails: the blocks before it pass every test, it passes the tests before its own and fails that one; 0 when the last block passes all and has no successor |
| `HeapCheck.CheckIsExactIff` | Core-1/mm/physical_mem.c:174-216 | a heap holds a list tiling all of it if and only if the check accepts, the first back link is NULL and the list reaches the end |
| `HeapCheck.ShortListIsAccepted` | Core-1/mm/physical_mem.c:174-216 | fifty bytes whose list ends after 25: accepted, though no list tiles them |
| `HeapCheck.FirstBackLinkIsAccepted` | Core-1/mm/physical_mem.c:205-208 | a whole-heap block with a back link into its own payload: accepted too |
| `HeapCheck.SmallSizeBreaksList` | Core-1/mm/physical_mem.c:98 | once a listed block's size is stored as less than a header, with the bytes below it in place, no list tiles the heap, whatever stands above |
| `Heap.Heap.Realloc` | Core-3/mm/virtual_mem.c:249-280 | all five outcomes: allocation, release, in place, moved with the whole old payload, or failure with the heap untouched |
| `Heap.Heap.Move` | Core-3/mm/virtual_mem.c:265-279 | the moving case: old payload carried over, every other payload in place |
| `Heap.Heap.Copy` | Core-3/mm/virtual_mem.c:273-274 | the copy between two payloads |
| `Ring.SlotIs` | Core-1/ipc/ipc.c:235-243 | the masked position and the two-part copy put byte j at counter + j modulo the capacity |
| `Ring.WrapKeepsPosition` | Core-1/ipc/ipc.c:235-246 | counters that wrap past 2^64 keep their buffer positions |
| `Ring.NotOverwritten` | Core-1/ipc/ipc.c:228-243 | a write that fits lands on no stored byte |
| `Ring.TransferAppends` | Core-1/ipc/ipc.c:235-246 | a transfer at the head appends to the stored bytes |
| `Ring.AdvanceDrops` | Core-1/ipc/ipc.c:275-276 | advancing the tail drops exactly the oldest bytes |
| `Ring.RingBuffer.Write` | Core-1/ipc/ipc.c:223-249 | all bytes appended, or none, with the three return values |
| `Ring.RingBuffer.Read` | Core-1/ipc/ipc.c:252-278 | the oldest bytes delivered and removed, or nothing touched |
| `Ring.RingBuffer.Available` | Core-1/ipc/ipc.c:281-286 | capacity minus bytes stored |
| `Ring.RingBuffer.Used` | Core-1/ipc/ipc.c:289-294 | the counters' difference is the number of bytes stored, at most the capacity |
| `RingSteps.NextKeeps` | Core-1/ipc/ipc.c:223-278 | every step of either side keeps the shared invariant |
| `RingSteps.ExecutionKeeps` | Core-1/ipc/ipc.c:223-278 | it holds in every state of every interleaving |
| `RingSteps.Distance` | Core-1/ipc/ipc.c:228-262 | what either side computes from the counters is the true amount of data and room |
| `RingSteps.ReadsArePrefixOfWrites` | Core-1/ipc/ipc.c:223-278 | in every interleaving the bytes read are a prefix of the bytes written, and what lies between fits the buffer |
| `RingSteps.ReaderSeesPublishedBytes` | Core-1/ipc/ipc.c:264-276 | the reader copies the next published byte, whatever the writer is doing |
| `RingSteps.WriterSparesUnreadBytes` | Core-1/ipc/ipc.c:235-246 | the writer overwrites no byte that is still unread |
| `RingSteps.WriteCompletes` | Core-1/ipc/ipc.c:223-249 | in every reachable state a message can be begun if and only if it is not empty and fits beside the unread bytes, and then steps lead to a state in which it is published whole |
| `RingSteps.WriteCanFinish` | Core-1/ipc/ipc.c:235-246 | a write that has begun can always be finished, whatever the reader has under way |
| `RingSteps.ReadCompletes` | Core-1/ipc/ipc.c:252-278 | any positive number of bytes up to all unread ones can be asked for, and no more, and then steps lead to a state in which exactly those were read |
| `RingSteps.ReadCanFinish` | Core-1/ipc/ipc.c:264-276 | a read that has begun can always be finished, whatever the writer has under way |
| `Sha384Constants.RoundConstantsAreCubeRoots` | Bootloader/x86_64/uefi/security/sha384.c:12-33 | every constant is the first 64 fraction bits of the cube root of its prime |
| `Sha384Constants.InitialWordsAreSquareRoots` | Bootloader/x86_64/uefi/security/sha384.c:35-43 | every initial word is the first 64 fraction bits of the square root of its prime |
| `Primes.PrimesAreTheFirst` | Bootloader/x86_64/uefi/security/sha384.c:12-43 | the eighty numbers the constants are taken from are all primes below 410, in order |
| `Sha384Spec.RoundWordIsCubeRoot` | Bootloader/x86_64/uefi/security/sha384.c:12-33 | the word used in round t is that of the t-th prime |
| `Sha384Spec.InitialWordIsSquareRoot` | Bootloader/x86_64/uefi/security/sha384.c:35-43 | the initial words are those of the ninth to sixteenth primes |
| `Sha384Spec.ChChooses` | Bootloader/x86_64/uefi/security/sha384.c:5 | bit by bit, for all words: Ch takes the bit of y where x has a one, and of z where it has a zero |
| `Sha384Spec.MajIsMajority` | Bootloader/x86_64/uefi/security/sha384.c:6 | bit by bit, for all words: Maj takes the bit that at least two of its arguments share |
| `Sha384Spec.AddCountsOn` | Bootloader/x86_64/uefi/security/sha384.c:79-88 | word addition counts on from its first argument, wrapping with the word |
| `Sha384Spec.ChainOfPrefix` | Bootloader/x86_64/uefi/security/sha384.c:112-126 | the state after n blocks depends on those blocks only |
| `Sha384Spec.ParseEight` | Bootloader/x86_64/uefi/security/sha384.c:54-63 | shifting and OR-ing eight bytes is big-endian parsing |
| `Sha384Spec.WordRoundTrip` | Bootloader/x86_64/uefi/security/sha384.c:157-166 | parsing undoes the writing of a word |
| `Sha384Spec.BigEndianByte` | Bootloader/x86_64/uefi/security/sha384.c:133-136 | the shifted and masked count words are big-endian digits |
| `Sha384Spec.BigEndianSplit` | Bootloader/x86_64/uefi/security/sha384.c:133-136 | two 64-bit count words make the 128-bit length field |
| `Sha384Spec.PadInOneBlock` | Bootloader/x86_64/uefi/security/sha384.c:140-144 | the short padding is that of FIPS 180-4 section 5.1.2 |
| `Sha384Spec.PadInTwoBlocks` | Bootloader/x86_64/uefi/security/sha384.c:145-152 | the long padding is that of FIPS 180-4 section 5.1.2 |
| `Sha384.MacrosAreStandard` | Bootloader/x86_64/uefi/security/sha384.c:4-10 | all six macros, CH and MAJ among them, are the functions of FIPS 180-4 section 4.1.3 for all words |
| `Sha384.CountStaysExactIff` | Bootloader/x86_64/uefi/security/sha384.c:106-110 | an exact 128-bit count stays exact if and only if the update is below 2^29 bytes |
| `Sha384.CountGoesWrong` | Bootloader/x86_64/uefi/security/sha384.c:110 | 2^29 bytes in one update set the high count word to one, where it should be zero |
| `Sha384.MakeSchedule` | Bootloader/x86_64/uefi/security/sha384.c:54-67 | the array holds the message schedule of the standard |
| `Sha384.EightyRounds` | Bootloader/x86_64/uefi/security/sha384.c:69-89 | the rotated variables, computed with the macros, are those of the eighty rounds of the standard |
| `Sha384.Sha384Ctx.Init` | Bootloader/x86_64/uefi/security/sha384.c:35-46 | the context of the empty message |
| `Sha384.Sha384Ctx.Transform` | Bootloader/x86_64/uefi/security/sha384.c:48-99 | one block compressed as in FIPS 180-4 section 6.4.2 |
| `Sha384.Sha384Ctx.Update` | Bootloader/x86_64/uefi/security/sha384.c:101-127 | the context of the longer message: state over its whole blocks, buffer with the rest; both count words as numbers after the two additions, the low one right, both exact if and only if below 2^29 bytes |
| `Sha384.Sha384Ctx.Absorb` | Bootloader/x86_64/uefi/security/sha384.c:112-126 | filling, hashing whole blocks and keeping the rest is hashing the concatenation |
| `Sha384.Sha384Ctx.HashFilled` | Bootloader/x86_64/uefi/security/sha384.c:112-119 | the completed block and the whole blocks after it are hashed as blocks of the concatenation |
| `Sha384.Sha384Ctx.HashRest` | Bootloader/x86_64/uefi/security/sha384.c:138-155 | the state after the padded message, in either branch |
| `Sha384.Sha384Ctx.Final` | Bootloader/x86_64/uefi/security/sha384.c:129-167 | the digest of everything absorbed, padded with the count words; the standard's digest when they are exact |
| `Sha384.ExactPadding` | Bootloader/x86_64/uefi/security/sha384.c:133-136 | exact count words pad as FIPS 180-4 section 5.1.2 asks |
| `Sha384.Sha384` | Bootloader/x86_64/uefi/security/sha384.c:169-174 | the one-shot call computes SHA-384 for messages below 2^29 bytes |
| `Sha384.HashPieces` | Bootloader/x86_64/uefi/security/sha384.c:101-167 | however a message is cut into updates below 2^29 bytes, the digest is SHA-384 of the whole |
| `Capability.CapSystem.constructor` | Core-0/capability/capability.c:25-35 | the empty system satisfies the invariant |
| `Capability.CapSystem.CreateDomain` | Core-0/capability/capability.c:207-238 | the next domain id in the next slot, with an empty space, no capabilities and the given memory base and size, every other slot as before; or 0 and nothing changed |
| `Capability.CapSystem.Create` | Core-0/capability/capability.c:40-84 | the next handle for a record with exactly the given type, permissions, resource, base, size and owner and a count of one, entered in its owner's space when that exists and has room, and nowhere else; or 0; the invariant is kept if and only if the owner does not name a free slot |
| `Capability.CapSystem.Grant` | Core-0/capability/capability.c:116-140 | a handle whose record has permission bit 3 is entered in the target's space and counted, and nothing else changes; otherwise nothing at all; the result in each case, and that a returned handle was entered if and only if the target had room |
| `Capability.CapSystem.Revoke` | Core-0/capability/capability.c:145-163 | the first occurrence taken out of the one space and uncounted, exactly when there is one, and nothing else changes; the cause of each error code |
| `Capability.CapSystem.Check` | Core-0/capability/capability.c:168-202 | 0 exactly when the domain holds the handle and every permission bit asked for was given at creation, bit by bit; the causes of the error codes |
| `Capability.CapSystem.GetDomain` | Core-0/capability/capability.c:272-279 | the first slot with the id |
| `Capability.CapSystem.GetCapability` | Core-0/capability/capability.c:325-341 | every handle ever issued resolves to the record created with it, and no other handle resolves |
| `Capability.CapSystem.AddCap` | Core-0/capability/capability.c:284-297 | the handle at the end of the packed space, or the right error code |
| `Capability.CapSystem.RemoveCap` | Core-0/capability/capability.c:302-320 | the first occurrence removed, or the right error code |
| `Capability.CapSystem.ShiftOut` | Core-0/capability/capability.c:311-315 | the shifting loop closes the gap and clears the last place |
| `Capability.AddKeepsPacked` | Core-0/capability/capability.c:294 | a packed space stays packed and gains the one handle |
| `Capability.RemoveKeepsPacked` | Core-0/capability/capability.c:308-317 | a packed space stays packed and loses the one handle |
| `Capability.OccurrencesAfterUpdate` | Core-0/capability/capability.c:284-320 | changing one space changes a handle's total by the difference in that space |
| `Capability.CreateDomainKeeps` | Core-0/capability/capability.c:207-238 | creating a domain keeps tables, counts and authority |
| `Capability.CreateKeeps` | Core-0/capability/capability.c:40-84 | creating a capability keeps them, if and only if its handle is not entered in a free slot |
| `Capability.FreeSlotTakesHandle` | Core-0/capability/capability.c:66-76 | the first capability, created for domain id 0, stands in a free slot; the next domain clears it and leaves a count of one with no place |
| `Capability.GrantKeeps` | Core-0/capability/capability.c:116-140 | granting keeps them, if and only if the handle is not entered in a free slot |
| `Capability.RevokeKeeps` | Core-0/capability/capability.c:145-163 | revoking keeps them, for every domain id |
| `Capability.RunHistory` | Core-0/capability/capability.c:40-163 | no record is ever altered, and every recorded grant was an operation of the run |
| `Capability.UseByNonOwnerWasGranted` | Core-0/capability/capability.c:168-202 | a non-owner that passes the check was granted the handle, which is grantable, with rights within those of creation |
| `Capability.UseByNonOwnerNeedsGrant` | Core-0/capability/capability.c:116-202 | the same for every run from the empty system, as a grant operation in that run |
| `Capability.GrantReportsTrulyIff` | Core-0/capability/capability.c:131-139 | a returned handle means an entered handle if and only if the handle is invalid or not grantable, or the target exists and has room |
| `Capability.GrantToNobody` | Core-0/capability/capability.c:131-139 | a handle returned and entered nowhere |
| `Capability.PlacesAreNet` | Core-0/capability/capability.c:40-163 | after every run a handle stands in a space as often as it was entered by creation or grant, less the times it was revoked |
| `Capability.UseIsNet` | Core-0/capability/capability.c:40-202 | in every run from the empty system a domain may use a capability if and only if that number is positive and the rights asked for are within those of creation |
| `Capability.UseIsPlace` | Core-0/capability/capability.c:168-202 | a domain may use a capability if and only if it stands in its space and the rights asked for are within those of creation |
| `Capability.PermitsIsInclusion` | Core-0/capability/capability.c:194 | rights suffice if and only if every bit of those asked for is among those held |
| `Capability.GrantableIsBit` | Core-0/include/capability.h:29 | a capability is grantable if and only if bit 3 of its permissions is set |
| `Capability.GrantIsEntry` | Core-0/capability/capability.c:116-140 | what a grant does to the tables: one handle more at the end of one space and one count more, or nothing |
| `Capability.UngrantableStaysWithOwner` | Core-0/capability/capability.c:125-129 | a capability without the grant right is in nobody's space but its owner's |
| `Capability.RefCountStaysExactIff` | Core-0/capability/capability.c:66-76 | in every run after its creation, a capability's count is its number of places if and only if the owner existed and had room when it was created |
| `Capability.OrphansAreSettled` | Core-0/capability/capability.c:72-76 | nothing later makes or cures a wrong count |
| `Capability.CountOfOrphanIsWrong` | Core-0/capability/capability.c:66-76 | the smallest example: count one, no place |
| `Regions.RegionTable.constructor` | Core-1/isolation/isolation.c:26-44 | an empty table with enforcement off |
| `Regions.RegionTable.Add` | Core-1/isolation/isolation.c:47-78 | the table with a region of exactly the given type, base, size, permissions and capability handle at its end, when there is room and no clash; otherwise the right error code and nothing changed |
| `Regions.RegionTable.Remove` | Core-1/isolation/isolation.c:81-98 | on 0 the first region with the base is taken out and the others keep their order, as slices of the old table; on -1 no region has the base and nothing changed |
| `Regions.RegionTable.VerifyAccess` | Core-1/isolation/isolation.c:101-127 | 1 exactly when enforcement is off or the first region that contains the range has every permission bit asked for |
| `Regions.RegionTable.GetRegion` | Core-1/isolation/isolation.c:147-161 | the first region the address falls in; in a disjoint table the only one that contains it |
| `Regions.RegionTable.Validate` | Core-1/isolation/isolation.c:176-201 | 0 exactly for consistent tables, in particular for disjoint ones; what each error code has found |
| `Regions.ClashIsOverlap` | Core-1/isolation/isolation.c:56-63 | the overlap test means a common byte |
| `Regions.AddKeepsDisjoint` | Core-1/isolation/isolation.c:47-78 | adding a proper region keeps the table disjoint |
| `Regions.AddKeepsDisjointIff` | Core-1/isolation/isolation.c:47-78 | a disjoint table stays disjoint if and only if the region is refused or proper |
| `Regions.UnnoticedIff` | Core-1/isolation/isolation.c:56-63 | two regions that do not clash share a byte of the address space if and only if both reach its end, or one does and the other meets one of its ends |
| `Regions.AddKeepsApartIff` | Core-1/isolation/isolation.c:47-78 | regions that share no byte stay so if and only if the new one is refused or overlaps none of them in that way |
| `Regions.LastPageTwice` | Core-1/isolation/isolation.c:47-78 | the last page of memory is accepted twice |
| `Regions.AddKeepsConsistentIff` | Core-1/isolation/isolation.c:47-78 | a table that passes the check keeps passing it if and only if the region is refused or not empty |
| `Regions.RunKeepsConsistent` | Core-1/isolation/isolation.c:47-98 | so the check returns 0 after every run that adds no empty region, even with wrapping ones |
| `Regions.EmptyRegionIsAccepted` | Core-1/isolation/isolation.c:47-78 | one addition of an empty region to the empty table makes the check fail |
| `Regions.RemoveKeepsDisjoint` | Core-1/isolation/isolation.c:81-98 | removing a region keeps it disjoint |
| `Regions.RunKeepsDisjoint` | Core-1/isolation/isolation.c:47-98 | every run that adds proper regions keeps it disjoint |
| `Regions.RunCounts` | Core-1/isolation/isolation.c:47-98 | after every run of additions and removals, a region is in the table as often as it was at first, plus the times it was accepted, less the times it was removed |
| `Regions.CoversIsInclusion` | Core-1/isolation/isolation.c:118 | permissions suffice if and only if every bit of those needed is among those held |
| `Regions.VerdictIsFirstMatch` | Core-1/isolation/isolation.c:110-121 | the recursive verdict is that of the first matching region |
| `Regions.DisjointIsConsistent` | Core-1/isolation/isolation.c:176-201 | the consistency check accepts every disjoint table |
| `Regions.VerdictIsExactIff` | Core-1/isolation/isolation.c:101-127 | for all disjoint tables the first match means "some region contains the range with all rights", if and only if the range is non-empty and does not wrap, or is one of the named empty ones |
| `Regions.OrderDoesNotMatter` | Core-1/isolation/isolation.c:110-121 | for such ranges the order of the regions is irrelevant |
| `Regions.WrappingRange` | Core-1/isolation/isolation.c:112-114 | for every wrapping range, a table that wrongly lets it pass |
| `Regions.RangeBetween` | Core-1/isolation/isolation.c:110-121 | for every other empty range, two regions whose order decides |

## Left out

- Instructions and devices: CR3, TLB invalidation, call gates, VGA, serial, UEFI protocols, disks. Unmapping invalidates only the first page of a range, so nothing is claimed about stale translations.
- The hardware walk models present, writable, user and page-size bits; canonical addresses, reserved bits and no-execute are not modelled. The code never sets the latter.
- Physical memory is modelled where page tables lie, as a map from address to table; a pointer outside it reads as zero. Other users of memory and frames are represented by two lemmas: `PageTables.ForestSurvivesFrameChange` for changes of frame records that leave table frames taken (`Isolation.IsolationState.FreeFrame` and `TakeFrames` apply it to calls by others), and `PageTables.UnownedTable` for writes to memory outside the tables. A client that writes into a table, for instance through a mapping of it, is not modelled.
- Isolation.IsolationState.MapMemory: the `cap_check` call passes the capability id where a domain id is expected (Core-0/isolation/isolation.c:260), so its outcome is an arbitrary boolean parameter.
- `mm_reserve`, and any meaning of the page counters as numbers of frames: only their arithmetic is stated.
- Spinlocks: each locked function is one atomic step.
- The `alignment` argument of the heap allocators is never used by the source; `malloc`, `calloc` and the `mmap` stubs are wrappers.
- Heap.Heap.Init: requires a region that does not start at address 0, which the walk takes for the end of the list, ends below 2^64, and is at most 2^64 - 34 bytes long, above which the split test of the source wraps.
- Heap.Heap.Alloc: requires that the request does not cut a block inside its own header (see `Heap.AllocKeepsHeapIff`). There the source writes fields of two overlapping headers and may follow a pointer it has just overwritten, so the bytes it leaves are not modelled; `HeapCheck.SmallSizeBreaksList` says that no list tiles them, if nothing below the block was written.
- Heap.Heap.Realloc: requires, when the block must move, that the same holds and that the old payload fits in the new block; `Heap.MoveSafeIff` says when that is, and `Heap.UnsafeMoveOverruns` that the source otherwise copies beyond the block. What the overwritten bytes then mean is not modelled.
- Heap.Heap.Move: requires the same as Realloc.
- Heap.Heap.Free: requires NULL or a live pointer; the source follows whatever it is given.
- Heap.Heap.Validate: requires that the links it follows are NULL or lead into the heap and that no size wraps the running offset; otherwise the source reads outside the heap or may not end.
- Core-1 keeps no used counter; `Heap` carries Core-3's counter for both.
- IPC endpoints, channels and messages, and the NULL checks of the ring.
- RingSteps.NextKeeps: the steps are sequentially consistent; weaker memory orders are not modelled. The source places barriers to that end.
- Sha384.Sha384Ctx.Update: one update is below 2^63 bytes, as a C object must be; the context is used up after `Final`. That two different messages have different digests is not claimed.
- The BIOS loader's SHA-384 and both RSA files, whose results are not those of any standard.
- `cap_delete`, `cap_derive` and `cap_delete_domain`: handles are resolved by position, so a deleted slot breaks resolution, and the other two take the lock they already hold. The `num_caps` and `num_domains` totals of the system.
- Capability.UseIsNet: runs that enter a handle under domain id 0 are excluded, because the next domain created in that slot clears it.
- The checked read and write wrappers of Core-1, `isolation_is_service_memory`, the enable and disable switches.
- Scheduler, services, file system, configuration and string routines.
