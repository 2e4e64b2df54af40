# SakanaOS: a verified model of the memory stack, the sector driver and the utilities

SakanaOS is a small i386 kernel. This project models the parts of it that compute over mutable
state and proves what they keep over every run. `dafny verify dfyconfig.toml` checks all of it.

| file | what it models |
|---|---|
| `Basics.dfy` | options, outcomes of calls, bytes |
| `Word32.dfy` | 32-bit wrap-around and the page arithmetic of the paging unit |
| `Memory.dfy` | byte memory, little-endian words, the 20-byte block header |
| `HeapLayout.dfy` | block lists as values: tiling, coalescing, allocation, release, best fit |
| `KernelHeap.dfy` | the kernel heap on byte memory, refining the block lists |
| `HeapRuns.dfy` | whole runs of the heap |
| `HeapClients.dfy` | runs of a client: the heap refines a store of separate byte buffers |
| `Placement.dfy` | the allocator used before the heap exists |
| `Pmm.dfy` | the frame bitmap |
| `Vmm.dfy`, `VmmRuns.dfy` | the two-level page directory, and runs of map calls |
| `Boot.dfy` | pmm_init, vmm_init and kheap_init in a row |
| `Ata.dfy` | byte-addressed reads and writes over whole sectors |
| `DeviceTree.dfy` | the device tree and the device registry |
| `Numerals.dfy`, `Format.dfy` | itoa, atoi, htoa and the two printf engines |
| `Tokens.dfy` | strtok in place and the command line loop |
| `KernelLog.dfy` | the circular buffer and the message log |

How the models are built:

- Code that updates state is a class or a method on arrays, with loops where the source has loops.
  Every such method is tied to a specification on values, and the properties are proved of that.
- The heap works on real headers in byte memory: a block header is five 32-bit words at
  address, address + 4, and so on, read and written through little-endian loads and stores. The
  ghost field `blocks` is the block list; `Valid()` says that walking the `next` links meets exactly
  that list, that `prev` inverts `next`, that the tail is last, that every header carries the magic,
  that the list tiles the heap range and that no two neighbours are free.
- A kernel panic is the outcome `Panicked`: the machine stops there.
- The central fact of the heap is `LiveDeterminesLayout`: a well-formed block list is determined by
  its live blocks. The round trips and the independence of the order of releases follow from it.

Where the code does not meet a plain promise, the project has the exact condition:

- The search of `kheap_find_best_fit` adds the header size scaled by the header size. For unaligned
  requests it accepts exactly the blocks that are large enough if and only if no search sum leaves
  32 bits (`SearchIsExact`; a failing request is `WrappingRequestPasses`).
- A page-aligned kmalloc relinks the old successor and the tail only through the later split. It
  keeps the whole invariant if and only if the payload was aligned already or the split is taken
  (`KMallocHeap`). The largest such request on a fresh heap fails (`AlignedRequestCanUnlink`,
  `FirstAlignedRequest`).
- krealloc looks at the magic and the size, not at the free flag. A released pointer whose block is
  still in the list comes back as if it were live if and only if the size fits (`KRealloc`,
  `FreeThenRealloc`).
- The placement allocator adds padding in 32 bits (`FailsExactly`, `WrappingRequestAccepted`).
- The kernel-space search wraps past the top of the address space when only a wrapping run is unused
  (`LowestRun`, `FullKernelSpaceWraps`).
- Unmapping releases frames and leaves the entries present. That keeps the sharing rule if and only
  if the range had no frame to release (`UnmapBreaksSound`).
- The range check of the ATA driver wraps. The driver runs out of bounds if and only if the
  transfer passes the check and ends at 2^32, is empty at address 0, or wraps into the sector it
  starts in (`Write`, `Read`); two such inputs are `WriteLastByte` and `ReadNothing`.
- `itoa` writes `-(` for -2^31, so that the round trip holds for every other number and no more
  (`AtoiItoa`).

## Model

| member | source | states |
|---|---|---|
| `Word32.AlignUp` | kernel/src/arch/i386/paging.c:52-54 | the result is page-aligned and, below the top page, less than a page above the argument |
| `Word32.AlignDown` | kernel/src/arch/i386/paging.c:56-58 | the result is page-aligned and the argument lies in its page |
| `Word32.LeastAligned` | kernel/src/arch/i386/paging.c:52-54 | no aligned address lies between an address and what it is aligned up to |
| `Memory.StoreLoad` | kernel/include/memory/heap.h:14-20 | a stored word reads back and no other byte changes |
| `Memory.FieldStored` | kernel/include/memory/heap.h:14-20 | storing one field changes that field of the header and nothing else in memory |
| `Memory.StoreBytes` | kernel/include/memory/heap.h:14-20 | the lowest byte of a word comes first |
| `Memory.HeaderWords` | kernel/include/memory/heap.h:14-20 | the five words lie in the order of the structure |
| `HeapLayout.TotalIsRange` | kernel/src/shell/shell.c:171-185 | the sum over all blocks of a tiled range is the length of the range |
| `HeapLayout.LiveDeterminesLayout` | kernel/src/memory/heap.c:220-271 | two coalesced block lists of one range with the same live blocks are equal |
| `HeapLayout.AllocateKeepsLayout` | kernel/src/memory/heap.c:114-135 | an allocation keeps tiling and coalescing and adds exactly one live block |
| `HeapLayout.ReleaseKeepsLayout` | kernel/src/memory/heap.c:241-270 | a release keeps tiling, restores coalescing on both sides and removes exactly that live block |
| `HeapLayout.AllocateThenRelease` | kernel/src/memory/heap.c:118-135 | releasing a fresh unaligned allocation restores the list of addresses, sizes and free flags |
| `HeapLayout.NothingLive` | kernel/src/memory/heap.c:38-41 | a well-formed list without live blocks is one free block of the whole range |
| `HeapLayout.AllocateAlignedKeepsLayout` | kernel/src/memory/heap.c:84-135 | a page-aligned allocation keeps tiling and coalescing; its payload is aligned and large enough |
| `HeapLayout.AllocateAlignedThenRelease` | kernel/src/memory/heap.c:84-135 | releasing a page-aligned allocation restores the list, padding block included |
| `HeapLayout.SearchIsExact` | kernel/src/memory/heap.c:273-294 | the unaligned search accepts exactly the large enough free blocks iff no search sum wraps |
| `HeapLayout.AlignedSearchIsExact` | kernel/src/memory/heap.c:279-289 | without a wrap the aligned search accepts exactly the free blocks in which, behind the scaled offset, the request fits at a page boundary that is the start or leaves a header |
| `HeapLayout.AlignedRoomIs` | kernel/src/memory/heap.c:84-93 | the check before the padding is cut holds iff the request fits at such a boundary of the payload |
| `HeapLayout.SearchDone` | kernel/src/memory/heap.c:277-293 | what the search loop keeps makes its result the first of the smallest candidates |
| `KernelHeap.AlignedLinks` | kernel/src/memory/heap.c:95-135 | after an aligned allocation the back links and the tail are right iff the guard holds |
| `KernelHeap.SplitLinked` | kernel/src/memory/heap.c:118-135 | the header writes of a split leave a list linked both ways |
| `KernelHeap.MergeLinked` | kernel/src/memory/heap.c:246-269 | the header writes of a merge leave a list linked both ways |
| `KernelHeap.PayloadWrite` | kernel/src/memory/heap.c:136-139 | writing inside one payload disturbs no header and no other payload |
| `KernelHeap.Heap.FindBestFit` | kernel/src/memory/heap.c:273-294 | NULL iff there is no candidate, otherwise the first of the smallest candidates |
| `KernelHeap.Heap.SplitOff` | kernel/src/memory/heap.c:117-135 | the block list is the allocated one, linked both ways, the tail moves only for the last block, other payloads keep their bytes |
| `KernelHeap.Heap.CutFront` | kernel/src/memory/heap.c:95-111 | the list gets the padding block; only the back link of the old successor is stale |
| `KernelHeap.Heap.KMallocHeap` | kernel/src/memory/heap.c:70-142 | unaligned: NULL iff the size is 0 or every free block is smaller, else the first of the smallest that suffice; aligned: NULL iff the size is 0, no free block has a fitting page boundary behind the scaled offset, or the first smallest of them has none in its payload; where the block starts, when a rest is split off, zero filling, all live payloads unchanged, a failure changes nothing, and the exact condition for the full invariant |
| `KernelHeap.Heap.Absorb` | kernel/src/memory/heap.c:258-270 | merging two neighbours keeps the chain, the back links and the tail, and clears the absorbed magic |
| `KernelHeap.Heap.GetHeapBlock` | kernel/src/memory/heap.c:170-178 | NULL iff no block of the list has this payload |
| `KernelHeap.Heap.KFree` | kernel/src/memory/heap.c:220-271 | panics iff the pointer is NULL or neither live nor in the 1 MiB placement area; otherwise releases exactly that block, keeps the invariant and every live payload |
| `KernelHeap.Heap.DoubleFree` | kernel/src/memory/heap.c:237-239 | a second release in a row always panics, whether or not the block was merged |
| `KernelHeap.Heap.KRealloc` | kernel/src/memory/heap.c:184-218 | for every pointer: NULL acts as kmalloc; a live block stays iff it is large enough, is refused iff kmalloc would be, and otherwise moves with all its bytes, the rest zero when asked for; a released block still in the list comes back, or NULL, or a panic, by its size alone; anything else outside the placement area panics; nothing else changes |
| `KernelHeap.Heap.Grow` | kernel/src/memory/heap.c:209-217 | the path of a block that is too small: it panics iff the block was free and the request is served |
| `KernelHeap.OthersStay` | kernel/src/memory/heap.c:84-135 | serving a request leaves every other block where and as it was |
| `KernelHeap.RefusedAt` | kernel/src/memory/heap.c:77-93 | whether a request is refused is decided by the one block the search settles on |
| `KernelHeap.UnalignedChoice` | kernel/src/memory/heap.c:277-293 | what fits an unaligned request and which block is chosen, block by block |
| `KernelHeap.ServedShape` | kernel/src/memory/heap.c:82-136 | the served block starts at the payload or at the first page boundary behind room for a header, and a rest of more than 20 bytes is split off |
| `KernelHeap.Heap.Init` | kernel/src/memory/heap.c:27-45 | panics iff no range was mapped, otherwise establishes the invariant with one free block |
| `KernelHeap.Heap.MemoryCommand` | kernel/src/shell/shell.c:171-185 | one line per block in order, and the total is always the heap size |
| `HeapRuns.RunKeepsLayout` | kernel/src/memory/heap.c:70-142 | every block list of every run tiles the heap, has no free neighbours and totals the heap size |
| `HeapRuns.RunsForgetHistory` | kernel/src/memory/heap.c:220-271 | runs that leave the same live blocks leave the same block list |
| `HeapRuns.RunEndsInitial` | kernel/src/memory/heap.c:38-41 | a run that leaves nothing live is back at the initial block |
| `HeapRuns.LivePayloadsDisjoint` | kernel/src/memory/heap.c:114-141 | in every reachable list blocks share no byte and lie in the heap range |
| `HeapRuns.FreeAll` | kernel/src/memory/heap.c:245-270 | freeing all live pointers in any order leaves one free block |
| `HeapRuns.MallocThenFree` | kernel/src/memory/heap.c:118-135 | kfree of a fresh kmalloc result restores the block list |
| `HeapRuns.DoMalloc` | kernel/src/memory/heap.c:70-142 | a kmalloc on the heap extends the run of its block lists |
| `HeapRuns.DoFree` | kernel/src/memory/heap.c:220-271 | a kfree on the heap extends the run of its block lists |
| `HeapRuns.DoRealloc` | kernel/src/memory/heap.c:184-218 | a krealloc on the heap extends the run of its block lists, by two steps when it moves |
| `HeapRuns.ReleasedBlock` | kernel/src/memory/heap.c:241-270 | a released block stays in the list iff it is not merged into the block before |
| `HeapRuns.FreeThenRealloc` | kernel/src/memory/heap.c:200-215 | krealloc right after kfree: a panic after a merge backwards, otherwise the dead pointer iff the size fits, NULL iff nothing fits, a panic iff something else does |
| `HeapRuns.WrappingRequestPasses` | kernel/src/memory/heap.c:279-285 | a request near 2^32 passes the search although nothing fits |
| `HeapRuns.AlignedRequestCanUnlink` | kernel/src/memory/heap.c:84-108 | on a fresh heap the largest aligned request passes the search, settles on the only block, has room, and fails the guard |
| `HeapRuns.FirstAlignedRequest` | kernel/src/memory/heap.c:84-135 | that very first request succeeds and leaves a heap without its invariant |
| `HeapClients.Step` | kernel/src/memory/heap.c:180-271 | one kmalloc, kfree, krealloc or write, aligned or not, does to the heap what it does to a store of separate buffers |
| `HeapClients.Run` | kernel/src/memory/heap.c:55-271 | every run from kheap_init on is a run of that store: buffers read back what was last written |
| `HeapClients.BuffersDisjoint` | kernel/src/memory/heap.c:114-141 | the buffers a client holds share no byte |
| `HeapClients.RunThenFreeAll` | kernel/src/memory/heap.c:220-271 | after any run, freeing what is held restores the block list of a fresh heap |
| `Placement.Arena.KMalloc` | kernel/src/memory/heap.c:144-168 | fails iff the 32-bit sum of padding and size exceeds what is left, and moves the head by that sum; an unaligned request starts at the head; without a wrap the range is fresh, aligned and in the area |
| `Placement.Pages` | kernel/src/memory/heap.c:144-168 | aligned pages are handed out iff there is room for them, and use up just that room |
| `Placement.FailsExactly` | kernel/src/memory/heap.c:149-160 | the 32-bit test is right iff the sum does not wrap to a value that fits |
| `Placement.WrappingRequestAccepted` | kernel/src/memory/heap.c:149-163 | in every area whose head lies one byte behind a page boundary a request for 2^32 - 1 bytes succeeds, and starts behind the new head |
| `Pmm.MarkingAdds` | kernel/src/memory/pmm.c:130-139 | setting a bit adds exactly that frame |
| `Pmm.ClearingRemoves` | kernel/src/memory/pmm.c:141-150 | clearing a bit removes exactly that frame |
| `Pmm.FrameMap.constructor` | kernel/src/memory/pmm.c:14-46 | a frame is free iff it has a byte of an available region |
| `Pmm.FrameMap.FreeRegion` | kernel/src/memory/pmm.c:34-45 | exactly the frames that touch the region become free |
| `Pmm.FrameMap.Set` | kernel/src/memory/pmm.c:130-139 | the frame is marked, the others are as before, the counter stays exact |
| `Pmm.FrameMap.Unset` | kernel/src/memory/pmm.c:141-150 | the frame is free, the others are as before, the counter stays exact |
| `Pmm.FrameMap.FindFreeFrom` | kernel/src/memory/pmm.c:108-118 | the lowest free frame at or after the address |
| `Pmm.CounterExact` | kernel/src/memory/pmm.c:124-150 | set bits number the counter plus one iff some bit is set |
| `Pmm.FrameSpan` | kernel/src/memory/pmm.c:35-42 | the index range of a region is the set of frames that share a byte with it |
| `Vmm.AddressSplit` | kernel/src/arch/i386/paging.c:32-46 | directory index, table index and offset together are the address |
| `Vmm.WalksAgree` | kernel/src/memory/vmm.c:77-108 | the walk of the paging unit and the kernel's walk agree on every address |
| `Vmm.MappedRights` | kernel/src/memory/vmm.c:131-152 | the words of a mapped address make its page writable and keep it from user mode |
| `Vmm.WithTableKeeps` | kernel/src/memory/vmm.c:121-137 | a new table changes no translation |
| `Vmm.WithEntryKeeps` | kernel/src/memory/vmm.c:148-152 | writing an entry changes that page and no other |
| `Vmm.MappedOne` | kernel/src/memory/vmm.c:110-153 | the mapped pages gain exactly the one page with its frame |
| `Vmm.NeededIs` | kernel/src/memory/vmm.c:121-140 | the tables a range uses up are those of its directory entries that were missing, each once |
| `Vmm.Manager.MapPage` | kernel/src/memory/vmm.c:110-153 | panics iff the page needs a table and there is no room for one; otherwise maps exactly that page, writable and for the supervisor, and uses up exactly that table |
| `Vmm.Manager.Physical` | kernel/src/memory/vmm.c:93-108 | a table in the placement area translates linearly before and after paging is on |
| `Vmm.Manager.Init` | kernel/src/memory/vmm.c:31-74 | succeeds iff there is room for the directory and the tables of the linear range; maps the low window and the kernel image linearly and nothing else, and reserves exactly their frames |
| `Vmm.InitTranslates` | kernel/src/memory/vmm.c:39-66 | every address of the linear range translates to itself minus the kernel base, on both walks, and its frame is reserved |
| `Vmm.Manager.IsPageUsed` | kernel/src/memory/vmm.c:155-163 | a page is used iff it is mapped |
| `Vmm.Manager.CheckRun` | kernel/src/memory/vmm.c:176-188 | accepts iff every page of the run, modulo the address space, is unused |
| `Vmm.Manager.FindFree` | kernel/src/memory/vmm.c:165-196 | the lowest start of a run of unused pages, NULL iff there is none |
| `Vmm.LowestRun` | kernel/src/memory/vmm.c:165-196 | the found run is the lowest one in kernel space iff kernel space holds one |
| `Vmm.FullKernelSpaceWraps` | kernel/src/memory/vmm.c:178-181 | with only the last page unused a two-page request gets a wrapping run |
| `Vmm.Manager.MapMemory` | kernel/src/memory/vmm.c:198-240 | succeeds iff there is a run of pages, enough free frames from the start on and room for the missing tables; NULL means too few frames, a panic no run, no room, or a rollback over a missing table; success maps its pages one after the other to the lowest free frames from the start on, marks exactly them, raises the count by the number of pages and keeps the sharing rule |
| `Vmm.TakesAscending` | kernel/src/memory/vmm.c:221-238 | the frames of a call come in ascending order |
| `Vmm.PagesCover` | kernel/src/utils/numeric.c:39-41 | the pages of a range cover its size, and one fewer would not |
| `Vmm.MapRunAt` | kernel/src/memory/vmm.c:221-238 | a map call changes the translation of its own pages only |
| `Vmm.Manager.UnmapMemory` | kernel/src/memory/vmm.c:242-260 | returns iff every page of the range has a table; releases exactly the frames behind the range, frame 0 excepted; no entry changes |
| `Vmm.UnmapBreaksSound` | kernel/src/memory/vmm.c:253-260 | unmapping keeps the sharing rule iff no page of the range had a frame to release |
| `Vmm.NoAliasing` | kernel/src/memory/vmm.c:221-238 | two mapped addresses never reach the same physical byte |
| `VmmRuns.RunStaysReady` | kernel/src/memory/vmm.c:198-240 | along every run no frame is shared, all are marked, the kernel stays linear, and the count is exact |
| `VmmRuns.TranslationsStay` | kernel/src/memory/vmm.c:221-238 | a page keeps its frame for as long as no call covers it |
| `VmmRuns.CallsShareNothing` | kernel/src/memory/vmm.c:224-237 | different calls never hand out the same frame |
| `VmmRuns.MapOne` | kernel/src/memory/vmm.c:198-240 | a call of the manager is a step of such a run iff it has pages, frames and tables to work with, and both walks agree after it |
| `Boot.Start` | kernel/src/main.c:34-44 | the machine comes up iff the placement area has room for the directory and all tables and the regions have frames for the heap behind the image; the heap then starts at the first page boundary behind the image as one free block, backed by frames of available regions that nothing else uses |
| `Boot.FreeEarlyMemory` | kernel/src/memory/heap.c:224-226 | memory of the placement area can be given to kfree on a booted machine, and nothing changes |
| `Boot.TablesNeeded` | kernel/src/memory/vmm.c:121-137 | those are two pages for the directory and one for every 1024 pages, rounded up |
| `Boot.LowestAfterKernel` | kernel/src/memory/heap.c:28-28 | right after vmm_init the search returns the page after the kernel image |
| `Ata.RegistersRoundTrip` | kernel/src/drivers/storage/ata.c:395-405 | the drive selects the drive and the 28-bit sector that the driver meant |
| `Ata.RegisterBytes` | kernel/src/drivers/storage/ata.c:395-405 | the registers hold the bytes of the sector number, and the drive bits in front of the highest four |
| `Ata.SectorSpliced` | kernel/src/drivers/storage/ata.c:318-325 | rewriting part of one sector splices that part into the flat disk |
| `Ata.PartBounds` | kernel/src/drivers/storage/ata.c:306-316 | the offsets and lengths of the loop cut the transfer into consecutive parts |
| `Ata.RangeCheckExact` | kernel/src/drivers/storage/ata.c:280-282 | the comparison is right iff the end does not wrap into the drive |
| `Ata.NotPlain` | kernel/src/drivers/storage/ata.c:291-325 | a transfer that wraps, or is empty at address 0, either has no sector to handle or runs out of bounds in its first one |
| `Ata.EscapesSize` | kernel/src/drivers/storage/ata.c:291-295 | a transfer wraps into the sector it starts in only with nearly 2^32 bytes |
| `Ata.Drive.ReadSector` | kernel/src/drivers/storage/ata.c:420-456 | the buffer holds the 512 bytes of that sector |
| `Ata.Drive.WriteSector` | kernel/src/drivers/storage/ata.c:382-418 | that sector holds the buffer, every other sector is as before |
| `Ata.Drive.Write` | kernel/src/drivers/storage/ata.c:279-330 | for every address and size: out of bounds iff it passes the check and ends at 2^32, is empty at 0 or wraps into its first sector; a range in the drive is spliced into the flat disk and the size returned; all others return 0 and change nothing |
| `Ata.Drive.Read` | kernel/src/drivers/storage/ata.c:332-380 | the same cases; a range in the drive is copied to the buffer and the rest of the buffer is unchanged |
| `Ata.Drive.WriteThenRead` | kernel/src/drivers/storage/ata.c:279-380 | reading any part of a written range returns the written bytes |
| `Ata.Drive.WriteLastByte` | kernel/src/drivers/storage/ata.c:279-325 | one byte at the last address runs past the end of every present drive |
| `Ata.Drive.ReadNothing` | kernel/src/drivers/storage/ata.c:332-375 | no bytes at address 0 sets out to read 2^23 sectors and overruns the buffer |
| `DeviceTree.SubSegment` | kernel/src/utils/generic_tree.c:118-142 | a subtree is one contiguous segment of the pre-order sequence |
| `DeviceTree.InsertSegment` | kernel/src/utils/generic_tree.c:75-90 | an insertion puts the node right after the segment of its parent |
| `DeviceTree.GraftedSub` | kernel/src/utils/generic_tree.c:80-89 | the new node is the last child of its parent and a leaf |
| `DeviceTree.RemoveSegment` | kernel/src/utils/generic_tree.c:92-116 | a removal deletes exactly the segment of the subtree |
| `DeviceTree.GraftedThenPruned` | kernel/src/utils/generic_tree.c:75-116 | removing a node just inserted restores the tree |
| `DeviceTree.RepInsert` | kernel/src/utils/generic_tree.c:80-89 | the pointer writes of an insertion represent the grown tree |
| `DeviceTree.RepRemove` | kernel/src/utils/generic_tree.c:97-115 | the pointer writes of a removal represent the pruned tree, and the removed subtree stays whole |
| `DeviceTree.FirstOfAll` | kernel/src/device/device.c:97-140 | the first match is the first of all matches, and there is none iff that list is empty |
| `DeviceTree.FirstIndex` | kernel/src/utils/generic_tree.c:118-142 | the first match stands at the first position that matches, and there is none iff no position does |
| `DeviceTree.KindPositions` | kernel/src/device/device.c:113-140 | the matches of a type are the devices of that type at ascending positions, none left out |
| `DeviceTree.Registry.Visit` | kernel/src/utils/generic_tree.c:152-178 | a foreach that records its nodes yields the whole tree in pre-order, each node once |
| `DeviceTree.FindIn` | kernel/src/utils/generic_tree.c:118-142 | the recursive search returns the first match in pre-order |
| `DeviceTree.ForeachIn` | kernel/src/utils/generic_tree.c:152-170 | the recursive visit folds any callback over the nodes in pre-order |
| `DeviceTree.Registry.Foreach` | kernel/src/utils/generic_tree.c:172-178 | the same for the whole tree, and nothing for an empty one |
| `DeviceTree.FoldCollects` | kernel/src/device/device.c:113-125 | with the collecting callback the fold is the list of matches |
| `DeviceTree.Registry.Insert` | kernel/src/utils/generic_tree.c:75-90 | the node becomes the last child of its parent; without parent or node nothing changes |
| `DeviceTree.Registry.Remove` | kernel/src/utils/generic_tree.c:92-116 | the subtree leaves the tree; removing the root empties it |
| `DeviceTree.Registry.Register` | kernel/src/device/device.c:55-65 | a new last child of the root holds the device |
| `DeviceTree.Registry.RegisterAt` | kernel/src/device/device.c:67-82 | a new last child of the first node whose data is the parent device, -1 iff no node has it |
| `DeviceTree.Registry.Unregister` | kernel/src/device/device.c:84-95 | the first node whose data is the device leaves with its subtree, -1 iff no node has it |
| `DeviceTree.Registry.RegisterThenUnregister` | kernel/src/device/device.c:55-95 | unregistering a device just registered restores the tree |
| `DeviceTree.Registry.FindByType` | kernel/src/device/device.c:97-111 | the device of the first node of that type in pre-order, NULL iff no node is of that type; it is the first of all of them |
| `DeviceTree.Registry.FindAllByType` | kernel/src/device/device.c:113-140 | exactly the devices of that type, in pre-order, by position |
| `Numerals.AtoiItoa` | kernel/src/utils/string.c:136-186 | parsing a printed number gives it back iff it is not -2^31 |
| `Numerals.AtoiText` | kernel/src/utils/string.c:141-158 | leading blanks, a plus sign and what follows the digits do not change the value; a minus sign negates it |
| `Numerals.BlankIs` | kernel/src/utils/string.c:141-144 | the blanks are the space and the characters 9 to 13 |
| `Numerals.ItoaTextIs` | kernel/src/utils/string.c:161-186 | an optional minus sign and the decimal numeral of the absolute value, without leading zeros |
| `Numerals.ValueOf` | kernel/src/utils/string.c:153-156 | the value of digits is positional with base ten |
| `Numerals.ItoaTextShort` | kernel/src/utils/string.c:161-186 | at most 11 characters, none of them NUL |
| `Numerals.DigitsValue` | kernel/src/utils/string.c:169-171 | the digits are a decimal numeral of the number |
| `Numerals.ReverseInPlace` | kernel/src/utils/string.c:179-184 | the range is reversed and the rest of the buffer is unchanged |
| `Numerals.Itoa` | kernel/src/utils/string.c:161-186 | the text with a NUL at the returned position, the rest of the buffer unchanged |
| `Numerals.Atoi` | kernel/src/utils/string.c:136-159 | blanks, sign and longest digit prefix, with 32-bit overflow |
| `Numerals.HexDigitsNumeral` | kernel/src/utils/string.c:194-222 | the digits are a hexadecimal numeral of the number without leading zeros |
| `Numerals.HexTextIs` | kernel/src/utils/string.c:194-222 | the prefix 0x and the hexadecimal numeral of the number |
| `Numerals.HexValueOf` | kernel/src/utils/string.c:202-220 | the value of hexadecimal digits is positional with base sixteen and the letters a to f |
| `Numerals.HexNumeralUnique` | kernel/src/utils/string.c:194-222 | there is no other such numeral |
| `Numerals.HexTextShort` | kernel/src/utils/string.c:194-222 | at most 10 characters, none of them NUL |
| `Numerals.Htoa` | kernel/src/utils/string.c:188-222 | the text with a NUL at the returned position, the rest of the buffer unchanged |
| `Format.Vsprintf` | kernel/src/utils/string.c:256-293 | writes what the format means, ends it with a NUL and returns its length |
| `Format.Stream.Vprintf` | kernel/src/io/stream.c:75-115 | emits what the format means and returns its length, within the 32-byte scratch buffer |
| `Format.Stream.PutBuf` | kernel/src/io/stream.c:19-39 | emits the scratch buffer up to its NUL |
| `Format.PrintBoth` | kernel/src/io/stream.c:75-115 | the stream emits exactly what vsprintf writes, and both return the same count |
| `Format.Conversions` | kernel/src/utils/string.c:263-285 | %d, %x, %p, %s and %c each print their argument: the decimal text, the hexadecimal text, the string, the character |
| `Format.PlainCharacters` | kernel/src/utils/string.c:283-288 | any other character, behind a percent sign or not, stands for itself and reads no argument |
| `Format.RenderConcat` | kernel/src/utils/string.c:260-290 | formats one behind the other print their texts one behind the other, each with its own arguments |
| `Tokens.SpansAreRuns` | kernel/src/utils/string.c:55-87 | the tokens are exactly the maximal delimiter-free runs |
| `Tokens.SpansOrdered` | kernel/src/utils/string.c:55-87 | the tokens come in order with a delimiter between any two |
| `Tokens.SpansAtMost` | kernel/src/shell/shell.c:64-73 | there are at most as many tokens as delimiters plus one |
| `Tokens.CountIs` | kernel/src/shell/shell.c:64-70 | the count of a delimiter is how often it occurs |
| `Tokens.Strtok.Next` | kernel/src/utils/string.c:55-87 | one call returns the first run, cuts it off with a NUL and leaves the other runs to later calls |
| `Tokens.CountSpaces` | kernel/src/shell/shell.c:64-70 | the number of spaces of the line |
| `Tokens.Tokenise` | kernel/src/shell/shell.c:63-82 | argv holds the starts of all runs in order, is never overrun, and every token is intact and NUL-terminated at the end |
| `KernelLog.Ring.constructor` | kernel/src/utils/circular_buffer.c:21-37 | an empty ring of the given capacity |
| `KernelLog.Ring.Enqueue` | kernel/src/utils/circular_buffer.c:39-52 | appends to the queue, nothing when full; without an element the old cell content is appended |
| `KernelLog.Ring.Dequeue` | kernel/src/utils/circular_buffer.c:54-67 | removes and returns the oldest element, nothing when empty |
| `KernelLog.Ring.Get` | kernel/src/utils/circular_buffer.c:77-82 | the i-th oldest element |
| `KernelLog.NextSlot` | kernel/src/utils/circular_buffer.c:51-66 | moving the head or the end by one moves every cell by one, around the capacity |
| `KernelLog.RecordText` | kernel/src/system/message.c:16-26 | the record has the level of the message and reads back as its text cut to 127 characters |
| `KernelLog.MessageLog.Kmessage` | kernel/src/system/message.c:15-32 | the new record comes last, and when 128 are there the oldest one leaves; the log is the last 128 of all records |
| `KernelLog.MessageLog.Dump` | kernel/src/shell/shell.c:138-162 | the walk meets the last min(n, 128) of the n records ever logged, oldest first, by index |
| `KernelLog.LogAll` | kernel/src/system/message.c:15-32 | after n calls the log holds min(n, 128) records, the i-th that of message n - min(n, 128) + i |
| `KernelLog.LastAt` | kernel/src/system/message.c:28-31 | what is kept of a sequence are its last elements, by index |

## Left out

- KernelHeap.Heap.KMallocHeap: requests whose search sum leaves 32 bits are excluded; `SearchIsExact` says that this is exactly where the search stops being right.
- KernelHeap.Heap.KFree: the 20 bytes before a heap pointer must not pass for a header where there is none (`NotForged`); a client that forges the magic in its own payload can break any property.
- KernelHeap.Heap.KRealloc: forged headers are excluded as for kfree, requests that wrap as for kmalloc, and aligned requests that would lose the back links, after which the heap has no invariant to keep.
- KernelHeap.Heap.GetHeapBlock: excludes pointers whose preceding bytes pass for a header without being one, as KFree does.
- KernelHeap.Heap.Init: the heap range must end 400 bytes below 2^32 and lie above the placement area, as it does in the kernel's layout (`Boot.Start` derives it).
- HeapClients.Run: unaligned requests only, each small enough that no search sum can wrap whatever the block list is; whether an aligned request is safe depends on the block list, so that `HeapClients.Step` asks for it call by call.
- HeapClients.Step: requests must neither wrap in the search nor lose the back links; what kfree does to a heap that lost one is not modelled.
- HeapClients.RunThenFreeAll: the same calls as Run.
- Placement.Arena.KMalloc: the zero filling of the area is not modelled; the area must end a page below 2^32.
- Vmm.Manager.MapPage: page tables come from the placement area; tables taken from the heap after kheap_init, which are not mapped linearly, are not modelled.
- Vmm.Manager.FindFree: the search in user space is not modelled, where the signed rounding of the size goes wrong; sizes in the last page below 2^32 are excluded.
- Vmm.Manager.MapMemory: explicit ranges must stay out of the linear kernel range and must not wrap, sizes stay below 2^31, and a search that would return a wrapping run is excluded; a call that fails half way promises no more than the directory's shape, because its rollback leaves entries present.
- Pmm.FrameMap.constructor: the region list is given; reading and sorting the boot loader's map is not modelled, and the bitmap does not depend on the order.
- Boot.Start: the allocations of the message log and of the bitmap are part of the given state of the placement area.
- Ata.Drive.Write: an access outside the caller's bytes, the sector buffer or the drive ends the model's run as `Overrun`, and nothing is said about what such an access does; the sector buffer that kmalloc returns is a parameter and its loss after the call is not modelled.
- Ata.Drive.Read: ends as `Overrun` in the same cases as the write.
- Format.Vsprintf: `%f`, a lone `%` at the end and arguments of the wrong kind are excluded; the buffer must be large enough.
- Format.Stream.Vprintf: excludes the same formats.
- Format.PrintBoth: excludes the same formats.
- Numerals.Itoa: the overflow of a negation is taken to wrap.
- DeviceTree.Registry.Unregister: freeing the removed node is not modelled; its children stay linked below it, out of the tree.
- DeviceTree.Registry.Insert: the new node carries no links and the parent is in the tree, as every caller in device.c has it.
- DeviceTree.Registry.Remove: the node is in the tree, as the one caller in device.c has it.
- DeviceTree.Registry.FindAllByType: the linked list of results is a sequence, and only append is used.
- KernelLog.Ring.Get: an index at or past the size gives no promise, and capacity 0, where the code divides by zero, is excluded.
- Hardware effects: port I/O, control registers, the TLB, interrupts, the assembly stubs; ATA probing and identification.
- GDT, IDT, TSS and PCI field packing, UUIDs and random numbers: short bit-field facts that would only add easy members.
- The VGA screen, the TTY loop and the keyboard table: user interface.
- Shifts and masks are written as divisions and remainders by powers of two; `bool` is a word that is 0 or 1.
