# Arcline, modelled and proved

Arcline is a small arm64 kernel. This project models its memory manager, its scheduler, its log and
its search for memory in the devicetree, and proves what they keep over every input and every run.

The models are imperative where the kernel is: node pools, bitmaps, page tables, link fields and rings
are arrays and fields that the methods change in place. Each method is proved against a value that says
what the data stand for:

- Both red-black trees (areas and runqueue) share one proof: link arrays with parent pointers and
  empty leaves stand for a tree, and the tree for the sequence of its slots in order. A stored tree is
  taken apart at any node into a context and a subtree, so that a rotation or a fixup step is a change
  below a context.
- The virtual memory manager keeps a tree of areas and four levels of page tables. Both stand for one
  plain map from pages to frames: a kernel page is translated if and only if the map has it, or it was
  translated from the start and no area has covered it since. Memory type and permissions of every page of
  an area are those of the area. Pages whose table could not be allocated are
  collected as holes, because the kernel ignores that failure.
- The page allocator's bitmap stands for a sequence of taken pages with a counter that is always exact.
- vmalloc's free list and the end of the part handed out stand for an account in which every address of
  the window belongs to exactly one free or live extent, until two free blocks touch and are merged.
- The scheduler's tree, leftmost node, bitmap, counters, task list and identifiers stand for one state
  value. The calls are functions on that value with a panic outcome, the methods are proved equal to
  them, and the theorems are about every run of calls.
- The log's bytes stand for a queue of records, through all wraparounds.
- The structure block of a flattened devicetree is read token by token; the tokens stand for a tree, and the
  answer is what the tree says of its memory.

A task pointer, a tree node and a free block are indices; NULL is -1, for frames and addresses 0.
64-bit and 32-bit sums that can wrap are written out. A public operation is one atomic step. Times, saved
registers and whether an allocation inside task creation succeeds are inputs.

## Where the code is narrower than its intent

The member named at the end of each line shows the failing case or says for which inputs the property holds.

- The overlap check of vmm_map is exact unless `va + size` wraps (`VmaMap.CheckSoundIff`).
- reserve_range covers what it should unless the end of the range wraps (`PmmClass.ReserveCoversIff`).
- Rewriting a page's attributes never clears an execute-never bit (`Descriptors.ExecuteNeverSticks`): a
  page mapped execute-never and protected without stays so (`AreaTables.StaysExecuteNever`), and vmm_protect
  is honoured exactly unless that happens (`AreaTables.ProtectHonouredIff`).
- Some page of a new area is left without an entry if and only if fewer pages are free than tables are
  missing (`VmmClass.Vmm.MapRange`).
- Merging two free blocks takes both off the list, and their addresses with them: vfree and a vmalloc that
  runs out of pages keep the account of the window unless the region touches a free block and a block can be
  had to record it, when the first merge loses it (`VmallocClass.Vmalloc.Return`, `AddressSpace.TwoBlocksLost`).
- find_free_space hands out a region of the window unless the request wraps
  (`AddressSpace.FindAccountedIff`), and vmalloc's rounding covers the request unless it wraps
  (`AddressSpace.RoundingCoversIff`), and with the guards unless that sum wraps too
  (`AddressSpace.TotalCoversIff`).
- The area pool is pushed again, with its live nodes, when it first runs out: the node handed out is then
  one in use (`VmaTreeClass.VmaTree.AllocNode`).
- A task without entry point or a 65th live task breaks the scheduler's invariant
  (`SchedulerLimits.CreateSoundIff`), and the 65th makes the next schedule() panic
  (`SchedulerLimits.OneTooMany`). Over every run at all, that is the only panic
  (`SchedulerLimits.StepEvery`).
- Enqueueing a task that is queued already queues it twice (`SchedulerRuns.EnqueueOkIff`).
- An exit of the idle task leaves a zombie that is run again, or no idle task
  (`SchedulerLimits.ExitSoundIff`).
- A time slice is a fair share only from nice 2 on, because its product has 32 bits (`ReadyQueue.SliceFair`,
  `ReadyQueue.SixAlikeIff`), and a charge depends on the weights queued but not on the task's own
  (`ReadyQueue.ChargedIs`).
- A preempted task goes on although another is queued when no time has passed and its virtual runtime is
  the lowest (`SchedulerFairness.PreemptedNextIff`).

## Model

| member | source | states |
|---|---|---|
| RedBlackTree.HeightLogarithmic | mm/vmm.c:67-242 | a tree with black root, no red-red edge and equal black heights has 2^((height+1)/2) <= slots + 1, so its height is at most 2 log2(n+1) |
| RbTreeClass.RotationKeepsOrder | mm/vmm.c:35-65 | a rotation keeps the in-order sequence of slots |
| RbTreeClass.RbTree.RotateLeft | mm/vmm.c:35-49 | the link writes turn the stored tree into the rotated one below any context, parent links included, and change nothing else |
| RbTreeClass.RbTree.RotateRight | mm/vmm.c:51-65 | the mirror image |
| RbTreeClass.RbTree.InsertStepLeft | mm/vmm.c:71-89 | one round with a red parent that is a left child: order kept, every black height kept, and the only possible red-red edge moves up or is gone |
| RbTreeClass.RbTree.InsertStepRight | mm/vmm.c:90-109 | the mirror image |
| RbTreeClass.RbTree.InsertFixup | mm/vmm.c:67-112 | ends, and gives a valid red-black tree with the same order and slots |
| RbTreeClass.RbTree.Insert | mm/vmm.c:369-382 | a slot hung at an empty place gives a valid red-black tree whose order is what was before the place, the slot, what was after it; links of other slots are untouched |
| RbTreeClass.RbTree.Transplant | mm/vmm.c:120-129 | the subtree at the other node takes the place of `u`, and the result is stored with consistent links |
| RbTreeClass.RbTree.DeleteStepLeft | mm/vmm.c:134-166 | one round with a left child one black node short: order kept, and the shortage moves up, turns into the last case or is gone |
| RbTreeClass.RbTree.DeleteStepRight | mm/vmm.c:167-199 | the mirror image |
| RbTreeClass.RbTree.DeleteFixup | mm/vmm.c:131-204 | ends, also when the node that moved up is NULL, and gives a valid red-black tree with the same order |
| RbTreeClass.RbTree.CutInner | mm/vmm.c:219-239 | the successor takes the place, children and colour of a node with two children, and what is left is stored with consistent links |
| RbTreeClass.RbTree.CutOuter | mm/vmm.c:211-218 | a node with at most one child is replaced by it |
| RbTreeClass.RbTree.Delete | mm/vmm.c:206-242 | removes exactly the given slot from the order and leaves a valid red-black tree; links of slots outside the tree are untouched |
| VmaMap.NeighboursSuffice | mm/vmm.c:346-356 | for an interval that does not wrap, the two neighbours are clear if and only if every area is |
| VmaMap.WrapDefeatsCheck | mm/vmm.c:257-263 | an interval whose end wraps passes the check on top of an area it covers |
| VmaMap.CheckSoundIff | mm/vmm.c:257-263 | for every start below the last page the check protects all lists of areas if and only if the interval does not wrap |
| VmaMap.InsertedOrdered | mm/vmm.c:346-382 | inserting a clear area keeps areas sorted and pairwise disjoint |
| VmaMap.PageMapInserted | mm/vmm.c:363-382 | an insertion adds exactly the area's block to the page map, and the block is new |
| VmaMap.PageMapRemoved | mm/vmm.c:440-441 | a removal takes exactly the area's pages out of the page map |
| VmaTreeClass.VmaTree.constructor | mm/vmm.c:302-307 | every node of the pool is free, no area is there, and the initialized flag is not set |
| VmaTreeClass.VmaTree.FindLe | mm/vmm.c:244-255 | finds the last area starting at or below the address |
| VmaTreeClass.VmaTree.FindGe | mm/vmm.c:309-319 | finds the first area starting at or above the address |
| VmaTreeClass.VmaTree.FindExact | mm/vmm.c:321-331 | finds the area starting at the address, NULL if and only if there is none |
| VmaTreeClass.VmaTree.AllocNode | mm/vmm.c:276-291 | hands out a node outside the tree while the list lasts; at the first exhaustion it hands out a node that is in the tree; after that NULL |
| VmaTreeClass.VmaTree.InsertNode | mm/vmm.c:363-382 | the areas in order become the old ones with the new one in its place, and the free list is intact |
| VmaTreeClass.VmaTree.RemoveNode | mm/vmm.c:440-441 | the areas in order lose exactly that one, and its node is back on the free list |
| PageTables.SameSpot | mm/mmu.c:29-32 | two addresses have the same four indices if and only if they lie in the same 48-bit page |
| PageTables.WalkIsLeaf | mm/mmu.c:38-69 | in a tree of tables the walk through memory gives the entry of the one table that the indices name |
| PageTables.WalkTranslates | mm/mmu.c:29-70 | a walk that does not fault is the processor's: bits 47-39, 38-30 and 29-21 of the address select entries with the two low bits set, each pointing at the next table, and bits 20-12 the entry found |
| PageTables.AddTable | mm/mmu.c:40-45 | hanging a zeroed page that holds no table at an invalid entry keeps the tables a tree and every leaf entry |
| PageTables.WriteLeaf | mm/mmu.c:68-70 | writing a level-3 entry changes that leaf entry and no other |
| Descriptors.PteEntryMaps | mm/vmm.c:387-397 | an entry built from an address and any VMM attributes is valid and gives the frame of the address |
| Descriptors.EntryBits | mm/vmm.c:387-401 | every bit of an entry: 0, 1, 8, 9 and 10 are set, 3 unless VMM_ATTR_DEVICE is given, 7 unless VMM_ATTR_W is, 53 and 54 if VMM_ATTR_PXN and VMM_ATTR_UXN are, and from bit 12 up those of the address; no other |
| Descriptors.UpdateKeepsFrame | mm/mmu.c:246-247 | rewriting attributes keeps validity and frame |
| Descriptors.ExecuteNeverSticks | mm/mmu.c:246-247 | from bit 12 up a rewritten entry has the bit if and only if the old entry or the request has it, so the bit is as requested if and only if it was clear or is requested |
| MmuClass.Mmu.AllocTable | mm/mmu.c:22-27 | fails if and only if no page is free; else takes one free page and zeroes exactly it |
| MmuClass.Mmu.EnsurePath | mm/mmu.c:38-66 | succeeds if and only if enough pages are free for the missing tables, and then makes exactly these, one page each; either way every translation is as before and new tables sit on pages that were free |
| MmuClass.MissingIsCount | mm/mmu.c:38-66 | the pages a walk needs are as many as tables of its path are not there |
| MmuClass.Mmu.MapPage | mm/mmu.c:34-74 | succeeds if and only if enough pages are free for the missing tables; then the walk of the address gives exactly the new entry and the walk of every other page is unchanged; a failed call changes no walk; tables stay a tree |
| MmuClass.Mmu.UnmapPage | mm/mmu.c:195-221 | returns 0 if and only if the page was mapped; then its walk gives 0 and no other walk changes; else nothing changes |
| MmuClass.Mmu.UpdatePageAttrs | mm/mmu.c:223-250 | returns 0 if and only if the page was mapped; then its walk gives the old frame with the new attributes and no other walk changes |
| MmuClass.Mmu.NewPgd | mm/mmu.c:79-80 | a fresh top-level table is empty and changes no translation |
| AreaTables.WalkAgrees | mm/vmm.c:505-521 | at every address inside a live area that is no hole, walking the page tables gives the frame that the areas give |
| AreaTables.AddressAgrees | mm/vmm.c:384-488 | at all times, an address of an area that is in no hole translates to the same offset from the physical address of the area, modulo 2^48 |
| AreaTables.AccessAgrees | mm/vmm.c:384-488 | at all times, after whatever mapping, unmapping and protecting, a page of an area that is no hole is valid, inner shareable and accessed, of memory type 0 for a device and 2 otherwise, writable if and only if the area is, and execute-never where the area is |
| AreaTables.TranslatedIff | mm/vmm.c:384-488 | a kernel page has a valid entry if and only if an area covers it and it is no hole, or it had one from the start and no area has covered it since |
| AreaTables.ViewMapped | mm/vmm.c:384-408 | entering the pages of a new area keeps tree and tables in agreement, both ways, with the pages that failed as holes |
| AreaTables.ViewUnmapped | mm/vmm.c:432-441 | so does leaving the pages of an area that goes |
| AreaTables.ViewUpdated | mm/vmm.c:469-486 | so does rewriting the attributes of an area and its pages |
| AreaTables.ReckonedStep | mm/mmu.c:38-66 | page by page, the tables made are exactly the distinct ones the run was missing at its start, until free pages are fewer than those |
| AreaTables.MappedBits | mm/vmm.c:387-401 | an entered page is of memory type 0 if VMM_ATTR_DEVICE is given and 2 if not, inner shareable and accessed, read-only if and only if VMM_ATTR_W is not given, and execute-never, in kernel and user mode each, if and only if its bit is given or the address has that bit |
| AreaTables.ProtectHonouredIff | mm/vmm.c:469-486 | after vmm_protect, the first or any later one, a mapped page of the area is of the memory type asked for and writable as asked, and execute-never as asked if and only if it was not execute-never before without the request asking for it |
| AreaTables.StaysExecuteNever | mm/mmu.c:246-247 | a page mapped with PXN and protected without it stays execute-never |
| VmmClass.Vmm.IsClear | mm/vmm.c:346-356 | the two tree lookups answer whether the interval is clear of all areas |
| VmmClass.Vmm.MapRange | mm/vmm.c:399-401 | every page of the run whose table could be had walks to its entry; the others were not translated and walk as before, like every page off the run; none fails if and only if the free pages are at least the distinct tables missing for the run |
| VmmClass.Vmm.Map | mm/vmm.c:333-412 | -1, -2, -3 and -4 for an empty, misaligned or overlapping request and for no node; on success the area is added in order, the page map gains exactly its block, each page of it that is no hole walks to the entry for its frame and attributes (whose bits MappedBits gives), every other walk is unchanged, there are new holes if and only if the missing tables outnumber the free pages, and tree and tables still agree both ways, in frames, memory types and permissions; on failure areas and memory are unchanged |
| VmmClass.Vmm.Unmap | mm/vmm.c:414-445 | the result code of each check; on success exactly the area with this start and size goes, every page of its range walks to invalid, every other walk is unchanged, and tree and tables still agree both ways |
| VmmClass.Vmm.Protect | mm/vmm.c:447-488 | on success the area's attributes change, the page map does not, every mapped page of the range walks to its old frame with the new attributes (whose bits ProtectHonouredIff gives), every other walk is unchanged, and tables and areas still agree in frames, memory types and permissions |
| VmmClass.Vmm.VirtToPhys | mm/vmm.c:505-521 | gives the physical address at the same offset in the area that covers the address, the address itself if none does, and agrees with the page tables on every page that is no hole |
| PageMap.FirstFitExact | mm/pmm.c:385-403 | first fit fails if and only if no run of that many free pages exists, and otherwise gives the lowest one |
| PageMap.RunWithinFree | mm/pmm.c:380-383 | a run of free pages is never longer than the free count, so the early exit loses nothing |
| PageMap.CountFreeTaken | mm/pmm.c:394-396 | taking a free run lowers the number of free pages by exactly its length |
| PageMap.AllocDisjoint | mm/pmm.c:377-407 | a new allocation overlaps no live one |
| PageMap.RunSound | mm/pmm.c:42-443 | over every run of reserve, allocate and free, live allocations never overlap and everything live or reserved is taken |
| PageMap.ReservedUntilFreed | mm/pmm.c:42-68 | a reserved page stays out of every allocation over any run that does not free it |
| PmmClass.Pmm.FindRun | mm/pmm.c:385-403 | the one-pass scan gives first fit |
| PmmClass.Pmm.AllocRun | mm/pmm.c:377-407 | NULL if and only if the count is 0 or no such run exists; else the lowest run is marked, exactly it, and the counter stays exact |
| PmmClass.Pmm.FreePages | mm/pmm.c:413-443 | clears exactly the managed pages of the range, ignores bad addresses, and a double free does not disturb the counter |
| PmmClass.Pmm.ReserveRange | mm/pmm.c:42-68 | marks exactly the clipped pages and keeps the counter exact, so its guard never stops a decrement |
| PmmClass.Pmm.Check | mm/pmm.c:460-479 | returns 0 if and only if the counter equals the number of clear bits, for every 64-bit counter |
| PmmClass.Pmm.Open | mm/pmm.c:344-371 | a page is taken if and only if one of the given ranges (kernel image, stack, devicetree, reserved memory, UART) or the first MiB reserves it, and the counter is exact |
| PmmClass.OpenTakesTouched | mm/pmm.c:350-371 | for ranges that do not wrap, these are exactly the managed pages that hold a byte of a range or lie in the first MiB |
| PmmClass.ReservedIsTouched | mm/pmm.c:50-60 | a range that does not wrap reserves exactly the managed pages it touches |
| PmmClass.WrappedReserveMisses | mm/pmm.c:45-54 | a range that wraps misses the last managed page although it touches it |
| PmmClass.ReserveCoversIff | mm/pmm.c:42-60 | a range starting before the last managed page has every touched page reserved if and only if its end does not wrap |
| AddressSpace.BestIsSmallest | mm/vmalloc.c:127-134 | the block chosen is large enough, none that is large enough is smaller, it is the first such, and there is none if and only if no block is large enough |
| AddressSpace.FindAccountedIff | mm/vmalloc.c:119-160 | with the answer live, every address of the window handed out belongs to exactly one free or live extent, if and only if a block was large enough or the request does not wrap; the answer then lies in the window |
| AddressSpace.FindFailsIff | mm/vmalloc.c:136-154 | a request that does not wrap fails if and only if no block is large enough and neither is the tail |
| AddressSpace.AccountedDisjoint | mm/vmalloc.c:119-160 | no address is in a free and a live extent |
| AddressSpace.ReturnAccounted | mm/vmalloc.c:171-177 | giving a live extent back keeps the account |
| AddressSpace.FindNoTouch | mm/vmalloc.c:119-160 | if no two free extents touch, none do after a search |
| AddressSpace.FrontTouches | mm/vmalloc.c:143-146 | a region cut from a larger block touches what is left of it |
| AddressSpace.MergeLoses | mm/vmalloc.c:70-106 | with two free extents off the list the account is lost, whichever they are |
| AddressSpace.TwoBlocksLost | mm/vmalloc.c:70-86 | two blocks side by side are an account of the window, and merging them loses it |
| AddressSpace.RoundingCoversIff | mm/vmalloc.c:188-189 | the pages computed cover the request if and only if the rounding sum does not wrap, and never by a whole page more |
| AddressSpace.TotalCoversIff | mm/vmalloc.c:188-190 | the 64-bit total is that of the pages and two guards if and only if the size is at most 2^64 - 12288 or above 2^64 - 4096, and covers the request and two guards if and only if the size is at most 2^64 - 12288; in between it is 0 or 4096 |
| FreeSpaceClass.FreeSpace.constructor | mm/vmalloc.c:20-25 | the list is empty and nothing is handed out; any two blocks that were never used touch |
| FreeSpaceClass.FreeSpace.FindBest | mm/vmalloc.c:122-134 | the list walk gives the best block and its predecessor |
| FreeSpaceClass.FreeSpace.TakeWhole | mm/vmalloc.c:138-142 | unlinks exactly the block, keeps list and pool linked and apart, and returns the block to the pool |
| FreeSpaceClass.FreeSpace.FindFreeSpace | mm/vmalloc.c:119-160 | answer, free extents and end of the used part are those of the search on values, and the pool has a block afterwards if and only if it had one or a block was used up |
| FreeSpaceClass.FreeSpace.AllocBlock | mm/vmalloc.c:37-51 | NULL if and only if the pool is exhausted; else a block of neither list nor pool; the free extents stay |
| FreeSpaceClass.FreeSpace.AddFreeSpace | mm/vmalloc.c:162-182 | the extent joins the front of the free list, or is forgotten if no block is left; then two blocks are merged if and only if two touch |
| FreeSpaceClass.FreeSpace.Coalesce | mm/vmalloc.c:58-114 | if no two blocks of the list touch, the pass ends and changes nothing; else it finds the first pair that does, in the order of its loops, and merges it |
| FreeSpaceClass.FreeSpace.Merge | mm/vmalloc.c:70-106 | one merge takes both blocks off the list, keeps list and pool linked and apart, and returns one of the two to the pool; if that one followed the block that grew, the latter still links to it and it to the pool, where the pass goes on |
| VmallocBooks.MineNothing | mm/vmalloc.c:206-217 | once every area and frame taken is given back, the areas are the old ones and only page-table pages are still taken |
| VmallocBooks.NodeLeft | mm/vmalloc.c:196-237 | if the nodes last for all pages and guards, or for as many areas as frames are free, a node is left whenever a frame is, so every vmm_map that is made adds its area |
| VmallocBooks.MineKeeps | mm/vmalloc.c:196-237 | areas another region owns stay its own, on the same frames, while a region is built, and share no frame with it |
| VmallocBooks.ClearedExact | mm/vmalloc.c:250-266 | giving a region's areas and frames back leaves exactly the books without them |
| VmallocBooks.ClearedKeeps | mm/vmalloc.c:250-266 | what shares no frame with the region freed is still owned |
| VmallocBooks.FindClear | mm/vmalloc.c:192-194 | if no area lies in free space, the region handed out has no area in it, and neither has the free space that is left |
| VmallocClass.Vmalloc.DropPage | mm/vmalloc.c:208-211 | the translation of a mapped page gives its own frame, and unmapping and freeing takes exactly that area and that frame out |
| VmallocClass.Vmalloc.RollBack | mm/vmalloc.c:207-214 | all data pages and the guard are given back |
| VmallocClass.Vmalloc.Fill | mm/vmalloc.c:203-220 | all data pages are mapped, each on a frame of its own, or everything is given back |
| VmallocClass.Vmalloc.Populate | mm/vmalloc.c:196-237 | guard, data and guard are mapped, or everything is given back, wherever pages run out |
| VmallocClass.Vmalloc.Return | mm/vmalloc.c:162-182 | the region becomes free, or stays accounted as live if no block is left; the account is kept if no block can be had or the region touches no free extent, and otherwise the first merge loses it |
| VmallocClass.Vmalloc.Alloc | mm/vmalloc.c:184-238 | NULL leaves the areas as they were and at most page-table pages taken, and a size of 0 or one that free space cannot answer changes nothing; else the region lies in the window from 0xFFFFFF8080000000 to 0xFFFFFF80C0000000, each page on a frame of its own, and outside holes every address of it is normal memory, never executed by the kernel, and writable exactly from the pointer on for the pages of the request, not in the guards; no area lies in free space and the account of the window is kept, unless pages run out in a region that touches a free extent and a block can be had, where the first merge loses it |
| VmallocClass.Vmalloc.AllocKeepsOthers | mm/vmalloc.c:184-238 | regions that stood before an allocation still stand after it, with or without success, and share no frame with the new one |
| VmallocClass.Vmalloc.StandsGuarded | mm/vmalloc.c:201-235 | a region that stands is guarded, whatever was allocated, freed or mapped since: outside holes its data are writable, its guards are not, and the kernel executes none of it |
| VmallocClass.Vmalloc.Free | mm/vmalloc.c:240-269 | in whatever order regions are freed, exactly this region's areas and frames go; the account is kept if no block can be had or the region touches no free extent, and otherwise the first merge loses it; NULL and size 0 change nothing |
| DeviceTree.ScanNode | mm/pmm.c:97-181 | below the root, the token loop over a node's tokens finds the first "reg" of a memory node in pre-order, or passes over the node without a trace |
| DeviceTree.ScanIsSearch | mm/pmm.c:97-181 | for every tree with properties before children, the token loop finds what the recursive search finds: the first "reg" of the first memory node that has one, decoded with the root's cell counts |
| MemoryNode.RootCellsAre | mm/pmm.c:131-139 | the address count is the first word, as a signed number, of the last "#address-cells" of the root with four bytes or more, and 2 if there is none; likewise the size count and "#size-cells" |
| MemoryNode.DecodeReads | mm/pmm.c:143-157 | for all counts and data the base is the first cells of the data and the size the next, as many as counted or as there are, as big-endian numbers modulo 2^64; a count that is not positive stands for 2 |
| MemoryNode.DecodesTuple | mm/pmm.c:143-157 | for all positive counts, a base of that many cells followed by a size of that many decodes to these numbers modulo 2^64 |
| MemoryNode.MemoryIsDescribed | mm/pmm.c:76-183 | the search succeeds if and only if some node whose name begins with "memory" has a "reg"; then it gives the first such property of the first such node, parents before children, read with the counts of the root |
| MemoryNode.DescribesOne | mm/pmm.c:76-183 | a tree describes at most one region |
| FlatTree.DecodesPairs | mm/pmm.c:143-157 | with two cells each, decoding gives back the 64-bit address and size that were encoded |
| FlatTree.TokenBytes | mm/pmm.c:97-109 | the bytes of a node's begin, its end, nop and end of tree: words 1, 2, 4 and 9, the name with a NUL and zeros to a multiple of four |
| FlatTree.PropertyBytes | mm/pmm.c:110-117 | the bytes of a property: word 3, its length, the offset of its name, its data and zeros to a multiple of four |
| FlatTree.NameLength | mm/pmm.c:102-104 | the scan ends at the NUL behind the name |
| FlatTree.ReadToken | mm/pmm.c:97-181 | one round moves the 32-bit cursor over exactly one token and changes depth, memory flag and cell counts as the token says, or ends with the answer |
| FlatTree.FindMemoryRegion | mm/pmm.c:76-183 | for every well-formed tree whose flattened bytes stand in memory, the loop ends and gives the region the tree describes, and -1 if and only if no memory node has a "reg"; -1 without a tree or with a magic number other than 0xd00dfeed |
| LogRecords.DroppedShortest | kernel/log.c:38-56 | dropping removes the shortest prefix of oldest records that leaves fewer than 4096 bytes in use with the new record |
| LogRecords.EncodedBytes | kernel/log.c:119-142 | a record is its level, its length in two bytes, low one first, and its message |
| LogRecords.WindowAppend | kernel/log.c:121-142 | bytes written behind a circular window extend it, wherever the end of the ring lies |
| LogRingClass.FirstRecord | kernel/log.c:159-186 | the oldest record can be decoded from the ring around the end, and the ring holds the rest behind it |
| LogRingClass.RecordAppended | kernel/log.c:121-142 | encoding a record at the head makes the ring hold the old records and the new one |
| LogRingClass.LogRing.constructor | kernel/log.c:58-65 | the ring is empty, at level 6 |
| LogRingClass.LogRing.Space | kernel/log.c:26-32 | free space is 4095 minus the sum of 3 + length over the records |
| LogRingClass.LogRing.Put | kernel/log.c:123-131 | the one or two copies write the bytes around the ring and advance the head |
| LogRingClass.LogRing.DropOldest | kernel/log.c:38-56 | the loop ends, and drops records until the bytes fit with one to spare |
| LogRingClass.LogRing.WriteStr | kernel/log.c:91-146 | below the level or before init nothing is stored; else the message, whole up to 4092 bytes and cut to them beyond, is appended after the shortest oldest prefix that makes room is dropped |
| LogRingClass.LogRing.Read | kernel/log.c:148-193 | gives the oldest record's level and bytes, cut to the buffer with a NUL behind them, and removes all of it; an empty ring or buffer changes nothing |
| ReadyQueue.PlacedOk | kernel/sched/eevdf.c:225-245 | inserting behind all tasks at or below keeps the queue free of repeats, sorted by virtual runtime and at or above the minimum |
| ReadyQueue.PlaceUnique | kernel/sched/eevdf.c:229-237 | a cut between at-or-below and above is the place, so equals keep their order |
| ReadyQueue.LoadBound | kernel/sched/eevdf.c:247-249 | the load of a queue is between 15 and 88761 times its length, far below 32 bits |
| ReadyQueue.WeightStep | kernel/sched/eevdf.c:8-13 | nice 0 weighs 1024, -20 weighs 88761 and 19 weighs 15; each step divides the weight by 1.2 to 1.28 |
| ReadyQueue.ChargedIs | kernel/sched/eevdf.c:364-378 | with d nanoseconds since the last charge and queued weights L (1024 if there is none), the charge c is the one with c * L <= d * 1024 mod 2^64 < (c + 1) * L, time then counts from now, and nothing else of the task changes |
| ReadyQueue.SliceIs | kernel/sched/eevdf.c:387-402 | 4 ms if none is queued; else the 32-bit product of 6 ms and the weight, divided by the weights queued, between 0.75 and 100 ms |
| ReadyQueue.SliceFair | kernel/sched/eevdf.c:387-402 | from nice 2 on it is the fair share: weight over weights queued, of 6 ms, within the limits |
| ReadyQueue.SixAlikeIff | kernel/sched/eevdf.c:387-402 | beside six queued tasks of the same nice value the slice is the fair 1 ms if and only if that value is 2 or more |
| RunQueueClass.RunQueue.AllocNode | kernel/sched/eevdf.c:28-38 | NULL if and only if 64 tasks are queued; else a node outside the tree is marked, and no other |
| RunQueueClass.RunQueue.FindPlace | kernel/sched/eevdf.c:225-237 | everything before the place is at or below the virtual runtime, everything after it above; the leftmost flag says whether nothing is before it |
| RunQueueClass.RunQueue.NextNode | kernel/sched/eevdf.c:271-283 | gives the node next in order, NULL for the last |
| RunQueueClass.RunQueue.Enqueue | kernel/sched/eevdf.c:207-250 | clamps to the minimum, then puts the task behind all at or below it; leftmost, bitmap, load and count stay exact; with 64 queued only the clamp happens; a task that is not READY is left alone |
| RunQueueClass.RunQueue.Dequeue | kernel/sched/eevdf.c:252-356 | removes exactly this task, nothing if it is not queued; leftmost, bitmap, load and count stay exact |
| RunQueueClass.RunQueue.PickNext | kernel/sched/eevdf.c:358-362 | gives the first task of the queue, NULL if it is empty |
| RunQueueClass.RunQueue.UpdateCurr | kernel/sched/eevdf.c:364-385 | nothing without elapsed time; else the charge of the time since the last one times 1024 over the weights queued, rounded down, in 64-bit arithmetic, and the minimum becomes the first queued task's virtual runtime, or the task's own; the queue stays sorted and at or above the minimum |
| RunQueueClass.RunQueue.CalcSlice | kernel/sched/eevdf.c:387-402 | 4 ms if none is queued; else the 32-bit product of 6 ms and the weight, divided by the weights queued, between 0.75 and 100 ms |
| RunQueueClass.RunQueue.IsQueued | kernel/sched/eevdf.c:414-425 | true if and only if the task is in the queue |
| PidMapClass.PidMap.Alloc | kernel/pid.c:13-28 | takes the lowest free identifier from 1 to 32767 and no other, -1 if and only if all of them are taken |
| PidMapClass.PidMap.Free | kernel/pid.c:30-39 | frees exactly that identifier; 0, negative ones and those out of range are ignored |
| TaskListClass.TaskList.PushFront | kernel/sched/task.c:102-105 | the task becomes the head, links consistent both ways |
| TaskListClass.TaskList.Unlink | kernel/sched/task.c:166-172 | exactly the task leaves the list, links consistent both ways |
| TaskListClass.TaskList.Find | kernel/sched/task.c:134-142 | gives the first task of the list with the identifier, NULL if there is none |
| KernelClass.Kernel.Init | kernel/sched/task.c:36-52 | panics if and only if an allocation fails; else the state is the boot state |
| KernelClass.Kernel.Schedule | kernel/sched/sched.c:10-101 | panics exactly when the state machine does, and otherwise leaves its state, which ScheduleBills, ScheduleCounts and ScheduleRunsLowest describe |
| KernelClass.Kernel.Preempt | kernel/sched/sched.c:103-202 | panics exactly when the state machine does, and otherwise leaves its state, which PreemptBills, PreemptCounts and PreemptRunsLowest describe |
| KernelClass.Kernel.Create | kernel/sched/task.c:54-108 | leaves the state machine's state, which CreatedIs describes, and gives the new task, or NULL with nothing changed |
| KernelClass.Kernel.Exit | kernel/sched/task.c:110-128 | panics exactly when the state machine does, and otherwise leaves its state, which ExitedIs describes |
| KernelClass.Kernel.Kill | kernel/sched/task.c:144-191 | -1 for NULL and idle, else 0; panics exactly when the state machine does, and otherwise leaves its state, which KilledIs describes |
| SchedulerRuns.BuriedPids | kernel/sched/task.c:163-164 | a burial frees the task's identifier and no other, so taken are 0, 1 and exactly the live tasks' identifiers |
| SchedulerRuns.PidsDistinct | kernel/sched/task.c:54-191 | no two live tasks share an identifier, in every state of every run |
| SchedulerRuns.FindFindsLive | kernel/sched/task.c:134-142 | in every state of every run, looking up a live task's identifier gives that task, although zombies with the same identifier may be in the list; looking up 0 gives idle |
| SchedulerRuns.UpdateCurrWf | kernel/sched/eevdf.c:364-385 | charging a task that is not queued keeps every queued virtual runtime at or above the new minimum |
| SchedulerRuns.EnqueueOkIff | kernel/sched/eevdf.c:207-250 | enqueueing a ready task with room keeps the queue well formed if and only if the task is not queued already |
| SchedulerRuns.PutBackWf | kernel/sched/sched.c:21-34 | putting the running task back panics if and only if it is not idle and 64 are queued; else it is READY and queued exactly once, and no other task changes |
| SchedulerSafety.NextFound | kernel/sched/sched.c:42-49 | there is always a task to go on with: idle is found when the queue is empty |
| SchedulerSafety.ScheduleSound | kernel/sched/sched.c:10-101 | from every sound state schedule() does not panic, and ends with exactly one RUNNING task, which is current, and exactly the READY tasks queued |
| SchedulerSafety.PreemptSound | kernel/sched/sched.c:103-202 | the same for schedule_preempt() |
| SchedulerSafety.ExitSound | kernel/sched/task.c:110-128 | the same for the exit of a task other than idle |
| SchedulerSafety.KillSound | kernel/sched/task.c:144-191 | the same for every kill, of the current task too |
| SchedulerSafety.CreateSound | kernel/sched/task.c:54-108 | the same for a creation with an entry point while fewer than 64 tasks are live |
| SchedulerSafety.RunSound | kernel/sched/sched.c:10-202 | over every run of the five calls that keeps to the rules, nothing panics, the invariant holds at the end, tasks keep their identifiers, and no zombie runs again |
| SchedulerSafety.BootIs | kernel/sched/task.c:36-52 | boot leaves idle alone, running and unqueued, with identifier 1 taken by nobody |
| SchedulerSafety.BootSound | kernel/sched/task.c:36-52 | the boot state satisfies the invariant |
| SchedulerLimits.RunEvery | kernel/sched/sched.c:10-202 | over every run at all, only READY tasks are queued, once each, sorted and at or above the minimum, every task but a zombie is in the list, exactly the current task is RUNNING, a task is current if one was, idle is listed and never queued, the identifiers taken are exactly 0, 1 and those of live tasks, tasks keep their identifiers, and no zombie other than idle runs again |
| SchedulerLimits.StepEvery | kernel/sched/sched.c:10-202 | whatever the callers do, each of the five calls keeps this, and a call panics if and only if it is schedule() or schedule_preempt() with a current task other than idle and 64 tasks queued |
| SchedulerLimits.BootEvery | kernel/sched/task.c:36-52 | the boot state has it |
| SchedulerLimits.LiveCountExact | kernel/sched/eevdf.c:24-26 | the queued tasks and the current one are exactly the live ones besides idle |
| SchedulerLimits.PidsSuffice | kernel/pid.c:13-28 | with at most 64 live tasks an identifier is always free |
| SchedulerLimits.CreateSoundIff | kernel/sched/task.c:83-100 | a creation keeps the invariant if and only if there is an entry point and fewer than 64 tasks are live |
| SchedulerLimits.OneTooMany | kernel/sched/sched.c:26-32 | with 64 live tasks, one of them running, creating another makes the next schedule() panic |
| SchedulerLimits.ExitSoundIff | kernel/sched/task.c:110-128 | an exit keeps the invariant if and only if it is not idle that exits while others are queued; an idle that exits alone is a zombie that runs again |
| SchedulerFairness.SameTaskNextIff | kernel/sched/sched.c:17-63 | in every state of every run schedule() panics if and only if the current task is not idle and 64 are queued; else it goes on with the same task if and only if no other is queued, or no time has passed and its virtual runtime, raised to the minimum, is below all queued ones |
| SchedulerFairness.PreemptedNextIff | kernel/sched/sched.c:111-173 | the same for schedule_preempt(), with time counted from the saved x23; wrapping of the virtual runtime makes no difference |
| SchedulerFairness.WaitIsBounded | kernel/sched/sched.c:10-101 | in every state of every run, while a queued task waits, the calls that choose a task are at most the sum over the other live tasks u of max(0, v_t - v_u + 1), over all further calls except creations and a kill of the task itself in which every charge is at least 1 and does not wrap; exits, of idle too, and kills of others are allowed, and a panic ends the count |
| SchedulerFairness.RunsWithinDebt | kernel/sched/sched.c:10-101 | so, from every state of every run, the task is current at some point of such a run with one more such call |
| SchedulerEffects.ChargeIsFair | kernel/sched/eevdf.c:364-385 | charging a task adds its time since the last charge times 1024 over the weights queued, rounded down, and leaves every other task alone |
| SchedulerEffects.MinimumIsLowest | kernel/sched/eevdf.c:380-384 | a charge makes the minimum the lowest virtual runtime queued, or the task's own if none is queued |
| SchedulerEffects.EnqueueRaises | kernel/sched/eevdf.c:207-213 | an enqueued task below the minimum is raised to it, and nothing else of it changes |
| SchedulerEffects.ScheduleBills | kernel/sched/sched.c:17-33 | in every state of every run, schedule() charges the task it interrupts from its last charge to now, and raises it to the minimum unless it is idle |
| SchedulerEffects.PreemptBills | kernel/sched/sched.c:111-127 | schedule_preempt() charges it from the x23 of the saved registers to the first reading of the clock |
| SchedulerEffects.ScheduleCounts | kernel/sched/sched.c:52-84 | in every state of every run, after schedule() the time of the current task counts from the call, whether it was switched to or stays, also when nobody was current; one that was switched to has the slice due to it |
| SchedulerEffects.PreemptCounts | kernel/sched/sched.c:153-199 | after schedule_preempt() it counts from the second reading of the clock if the task was switched to and from the first if it stays |
| SchedulerEffects.ScheduleRunsLowest | kernel/sched/sched.c:10-101 | in every state of every run, the task schedule() goes on with is at or below all queued ones, it is idle only if none is queued, and the queued tasks and the current one are together the same as before |
| SchedulerEffects.PreemptRunsLowest | kernel/sched/sched.c:103-202 | so is the task schedule_preempt() goes on with |
| SchedulerEffects.CreatedIs | kernel/sched/task.c:54-108 | a creation changes nothing without memory, stack or a free identifier; else there is one more task, READY, with the lowest free identifier from 1 to 32767, the nice value asked for cut to -20 .. 19 and a slice of 4 ms, first in the list; with an entry point it is at the minimum and queued if fewer than 64 are |
| SchedulerEffects.KilledIs | kernel/sched/task.c:144-191 | a kill of a live task makes it a zombie off queue and list and frees its identifier and no other; nobody else changes, or, if it was current, the lowest of the others runs; other kills do nothing |
| SchedulerEffects.ExitedIs | kernel/sched/task.c:110-128 | an exit makes the current task a zombie that stays in the list and frees its identifier and no other, and the lowest of the others runs |

## Left out

- coalesce_free_list after its first merge (mm/vmalloc.c:58-117): the pass goes on from links of a block that has left the list and can walk the pool, where blocks that were never used touch one another, so what it does from there, or whether it ends, is not modelled.
- FreeSpaceClass.FreeSpace.AddFreeSpace: when two blocks touch, the state it states is that after the first merge, where this model of the pass ends.
- FreeSpaceClass.FreeSpace.Coalesce: the same.
- VmallocClass.Vmalloc.Return: that the account is lost is stated of the state after the first merge, not of what the rest of the pass leaves.
- VmallocClass.Vmalloc.Alloc and VmallocClass.Vmalloc.Free, when they merge: the same; the areas and frames they state are not touched by the pass.
- KernelClass.Kernel.Create: the order of the two allocations inside it is not modelled; each is an input that says whether it succeeds, and the new task's memory appears once both have.
- VmallocClass.Vmalloc.Alloc: moreover, requests whose sum with the end of the used part wraps are excluded, because they are answered with a region outside the window, and so are calls for which both the request and the free frames outnumber the free area nodes, because the first exhaustion of the node pool hands out a node in use.
- VmmClass.Vmm.Map: intervals that wrap and the first exhaustion of the area pool are excluded, because either breaks the areas; both are shown by lemmas of their own.
- RunQueueClass.RunQueue.Enqueue: a task that is queued already is excluded; the kernel never does this, and it would queue the task twice.
- RunQueueClass.RunQueue.UpdateCurr: a queued task is excluded; the kernel charges the current task only, and a charge to a queued one can put the tree out of order.
- eevdf_set_nice (kernel/sched/eevdf.c:404-412): nothing calls it; on a queued task it would make the load counter disagree with the queue.
- mmu_init, mmu_map_region and mmu_enable (mm/mmu.c:76-193): the mapping loops add nothing to the loop of vmm_map, the rest is registers.
- reserve_reserved_memory and reserve_dtb_blob (mm/pmm.c:185-305): the ranges they reserve are an input of `Open`; the first is a second devicetree scan whose property branch is never reached.
- dtb_get_stdout_uart_base (drivers/dtb.c): a path lookup that does not pop its path on an outer end of node.
- Devicetrees that are not well formed: the token loop reads past the block on them.
- Console output of the log and printk formatting: output only.
- Context switches, register files except x23, TLB, caches and barriers: a switch is the change of the current task.
- Spinlocks and interrupts: every public operation is one step.
- Serial, GIC and timer drivers, panic output, IRQ and syscall tables, string functions: easy next to the rest.
