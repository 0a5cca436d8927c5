# A verified model of the kernel's core

This project models, in Dafny, the parts of a 64-bit multicore kernel that carry state and
conservation laws, and proves what they keep. It covers six areas.

**Kernel memory.** `PageFrames` is the reference-counted page-frame allocator, `PageTables`, `IoRemap`
and `Fork` are the four-level page tables with mapping, unmapping, deep copy and release. Paging follows
the Intel SDM, volume 3A, section 4.5. `HeapBlocks`, `LinkedList` and `KernelHeap` are the first-fit heap
with its address list and sorted free list; `Slabs`, `AddressMap` and `Kmalloc` are the slab classes and the
`kmalloc`/`kfree` layer over all three allocators, and `KernelMemory` the page tables and frames behind their
pages.

**The ext2 file system.** `Ext2Volume` holds bitmaps and free counts, `Ext2Tree` the direct, indirect and
double indirect block tree, `Ext2Truncate` truncation and deletion, `Ext2File` byte reads and writes, `Ext2Resize` changes of a file's size,
`Ext2Directory` the variable-length records of directories and `Ext2DirectoryFile` directories as files of
the volume. Layouts follow "The Second Extended File System,
Internal Layout" (D. Poirier).

**Scheduling.** `TaskModel` defines the steps (switch, yield, sleep, wake, exit, fork, exec, migrate, FPU
trap), `TaskPlacement` proves where tasks are, `LazyFpu` that every task finds its own FPU registers,
`LoadBalance` that balancing converges, `Scheduler` puts them together over whole runs, and `SchedulerCode`
is the kernel's code for the steps. CR0.TS is described in the Intel SDM, volume 3A, section 2.5.

**Names and descriptors.** `Paths` relates path resolution and `getcwd`; `Descriptors` relates reference
counts and descriptor slots over whole runs of system calls.

**Locks.** `Mutex` and `RwLock` are interleaved atomic steps of any number of tasks.

**Formatted text.** `Printf` gives the meaning of formats and the round trips of 64-bit numbers, `PrintfTrips` those
of ints, shorts, lists and texts, `PrintfCode` the code.

## Conventions

- `halt()` stops the machine. It appears as a result `None` or `halted`, and contracts say exactly when.
- Code that updates state is a method on a class or on values, proved against functions and predicates on
  mathematical values; laws over several operations are lemmas about those.
- Physical addresses of frames are frame numbers. The fields of heap nodes are maps from node addresses.
- Addresses of newly allocated kernel objects, the outcome of path lookups, register contents after `fninit`
  and counters read without a lock are parameters.
- A scheduler operation is one step from the point where it holds the locks of the lists it changes, with
  interrupts off. `load_balance` holds none while it reads the counters: what it read is a parameter, and a
  migration is a step between any two CPUs that differ by 2 when `tasks_travel` holds their locks. Exit is one
  step from the point where the state becomes zombie.

## Where the code differs from what one would expect

- `heap_alloc` rounds its request in 32 bits, so requests above 0xfffff000 wrap to 0. `HeapBlocks.AlignedHolds`
  states the exact bound and `HeapBlocks.WrappedRequestBreaksTiling` what would follow.
- `schedule()`, called by a woken mutex waiter that loses the race, drops that task from all lists
  (`Mutex.LostForever`, `Mutex.WokenButLost`).
  `Scheduler.ScheduleKeepsPlacementIff` states when a bare call is safe; `sys_yield` and `sleep_on` do not look
  for the idle task either, and have the same kind of lemma.
- `sys_exit` has interrupts on between marking its task a zombie and its last `schedule()`. A timer interrupt
  there puts it back on the ready list: `Scheduler.PreemptForgetsZombie`.
- File positions are 64-bit but logical block numbers are cut to 32 bits, and so is the size on disk. A write at
  2^32 blocks goes to the start of the file: `Ext2File.WriteAtReach`, with the exact condition in
  `Ext2File.WroteInPlaceIff`.
- Truncation holds both block counts in 32 bits and compares the direct pointers with a signed index.
  `Ext2Resize.HugeThenNothing` and `Ext2Resize.HugeThenLess` are sizes at which it keeps or drops the wrong blocks,
  `Ext2Resize.CutCounts` ones at which the index is negative, and `Ext2Resize.PreciseIff` says for which sizes all
  is well.
- Shrinking a file does not clear the rest of its last block, so growing it again shows the old bytes.
  `Ext2Resize.ShrinkThenGrow` states exactly when.
- `vsscanf` steps past the end of a format that ends inside a conversion. `PrintfCode.ScanText` says for which
  formats and texts. `PrintfCode.CompleteNeverOverruns` gives formats that are safe with every text; its condition
  is sufficient only, as `PrintfCode.CutOffButSafe` shows.
- `ext2_bmap_alloc` counts a block in `i_blocks` before it knows whether it got one, so a failed call counts one
  too many. The contract of `Ext2Tree.BmapAlloc` says so.
- The comment in `ext2_dir_remove_entry` speaks of merging with a free predecessor; the code merges with any
  predecessor. The model follows the code.
- Slabs of the middle classes compute offsets in 32 bits, which limits the 1024-byte class to 16384 slabs and the
  2048-byte class to 8192. The limit is part of `AddressMap`.
- `slab_alloc` calls `kmalloc` for the header of a new middle slab while its lock is held, and `spin_lock` is not
  reentrant: the source hangs there, exactly when a request for 513 to 2048 bytes takes the last object of its
  class (`Kmalloc.Relocks`). The model goes on with the nested allocation and returns `relocks` for these calls.
- `%p` cannot be read back by `%p`: `PrintfTrips.PointerReadsZero`.
- `%u` reads an `int` and extends its sign. The model of the formatter does the same.
- `fninit` leaves data registers as they are, so a task's first FPU state is whatever the registers held.

## Model

| member | source | states |
|---|---|---|
| `PageFrames.PhysicalMemory.constructor` | src/mm/mm.c:65-85 | the areas are clipped to the end of the reference table; exactly the frames of the clipped areas are free and every other frame is reserved |
| `PageFrames.PhysicalMemory.AllocPage` | src/mm/mm.c:102-122 | hands out the lowest free frame of the first area that has one, never a frame in use; halts exactly when no area has a free frame; the hint search cannot fail |
| `PageFrames.PhysicalMemory.AllocN` | src/mm/mm.c:125-158 | returns 0 exactly when no area has n consecutive free frames, else the first such run, and counts exactly those frames |
| `PageFrames.PhysicalMemory.FindRun` | src/mm/mm.c:133-154 | the scan from the hint finds the lowest run of the area, or none exists |
| `PageFrames.PhysicalMemory.DecRef` | src/mm/mm.c:180-201 | lowers one count; halts exactly on frames that are free, reserved or out of range; a frame that becomes free updates only its own area |
| `PageFrames.PhysicalMemory.AddRef` | src/mm/mm.c:203-214 | raises a count unless it is saturated, and changes no free count |
| `PageFrames.PhysicalMemory.FreeN` | src/mm/mm.c:167-178 | releases n frames in order and halts at the first one it must not release |
| `PageFrames.PhysicalMemory.AllocThenFree` | src/mm/mm.c:125-178 | freeing a run that was just allocated restores every count, every free count and every hint |
| `PageFrames.CountsDetermineAreas` | src/mm/mm.c:102-214 | the free counts and, where an area has room, the hints are determined by the reference counts |
| `PageTables.LayersOfAddress` | src/mm/mm.c:238-245 | splitting a page address assembled from four indices gives the indices back |
| `PageTables.AddressOfLayers` | src/mm/mm.c:238-245 | the four indices are injective on canonical page addresses |
| `PageTables.LeafEdit` | src/mm/mm.c:217-328 | rewriting a last-level entry changes the mapping of exactly one page |
| `PageTables.LinkEdit` | src/mm/mm.c:252-257 | hooking an empty table into an absent entry changes no mapping and keeps the tables a tree |
| `PageTables.ReachLeaf` | src/mm/mm.c:246-258 | the descent makes exactly the missing tables out of free frames, changes no mapping, and halts only on a large page or when the frames run out |
| `PageTables.PutPage` | src/mm/mm.c:217-264 | adds exactly one binding to the map, even when tables are created; halts exactly on a mapped page, a large page or too few frames; entries that were there stay, those made for new tables let user code through exactly for types 1 and 2, and the rights of no other page change |
| `PageTables.RightsOfSmall` | src/mm/mm.c:246-263 | user code may use, and writes may change, a page exactly if all four entries of its walk allow it |
| `PageTables.FirstUserPage` | src/mm/mm.c:222-263 | a page put where there were no tables has exactly the rights of its type: user and write for 1, user only for 2, write only for 0 |
| `PageTables.NextPage` | src/mm/mm.c:238-245 | the page after a page has the next last-level entry, and the upper indices carry |
| `PageTables.ExistPage` | src/mm/mm.c:272-300 | true exactly when the map is defined at the page |
| `PageTables.RmPage` | src/mm/mm.c:302-328 | deletes exactly one binding; halts exactly when no 4 KiB page is mapped there |
| `IoRemap.FindGap` | src/mm/mm.c:503-532 | the first gap of the window that is large enough, or none exists |
| `IoRemap.Remap` | src/mm/mm.c:499-539 | maps the first gap to the frames of the range and changes no other page; 0 exactly when there is no gap; halts exactly when the free frames are fewer than the distinct tables the pages of the gap lack |
| `IoRemap.PageCountLeast` | src/mm/mm.c:499-505 | the pages of a range cover it, and no fewer do |
| `IoRemap.RemappedTranslates` | src/mm/mm.c:499-539 | byte k of a remapped range translates to physical byte phy + k, for every alignment and size |
| `IoRemap.Unmap` | src/mm/mm.c:541-551 | removes exactly the pages of the range |
| `IoRemap.UnmapUndoesRemap` | src/mm/mm.c:499-551 | unmapping a remapped range is possible and leaves the map it started from |
| `IoRemap.RemapThenUnmap` | src/mm/mm.c:499-551 | io_unmap after io_remap does not halt and restores the map |
| `Fork.CloneWalk` | src/mm/mm.c:395-437 | a copied table maps the same pages with the same flags, rights and contents as its source |
| `Fork.DistinctWalk` | src/mm/mm.c:395-437 | in a copy, different pages lie in different frames |
| `Fork.CopyUser` | src/mm/mm.c:395-437 | copies a table with everything below it into fresh frames, leaving the source untouched; halts exactly on a large page or when frames run out |
| `Fork.CopyPageTable` | src/mm/mm.c:439-474 | shares the kernel half and copies the user half, taking exactly the frames the source tree has |
| `Fork.ForkAddressSpace` | src/task/task.c:493-506 | for every user page the child translates it exactly if the parent does, with equal flags, rights and contents, in a fresh frame shared with nobody; nothing in use is changed |
| `Fork.FreeLevel` | src/mm/mm.c:360-375 | every frame below a table loses exactly one reference, whoever else holds it |
| `Fork.FreePageTable` | src/mm/mm.c:377-393 | every frame of a user address space and its top-level table lose exactly one reference; never halts on a tree of held frames |
| `Fork.ForkThenFree` | src/mm/mm.c:360-474 | freeing a forked address space returns every reference count and free count to its value before the fork |
| `Ext2Volume.FlipBit` | src/fs/ext2.c:1775-1829 | changing one bitmap bit changes the set of used blocks by one block and keeps bitmaps and free counts in agreement |
| `Ext2Volume.Volume.AllocBlock` | src/fs/ext2.c:1775-1808 | the first clear bit of the first group with a free block is set; None exactly when the volume is full; group and superblock counts fall by one |
| `Ext2Volume.Volume.FreeBlock` | src/fs/ext2.c:1810-1829 | clears exactly the bit of a used block and raises both counts; anything else is ignored |
| `Ext2Volume.BlocksInOrder` | src/fs/ext2.c:1775-1829 | the bits of the bitmaps name the blocks from the first data block on, one after the other, across groups |
| `Ext2Volume.LittleEndian` | src/fs/ext2.c:1519-1561 | pointer words have their lowest byte first |
| `Ext2Tree.PathOfLogical` | src/fs/ext2.c:1495-1563 | the logical block of a data path leads back to the path |
| `Ext2Tree.LogicalOfPath` | src/fs/ext2.c:1495-1563 | direct, indirect and double indirect paths cover the range of logical blocks, each exactly once |
| `Ext2Tree.Bmap` | src/fs/ext2.c:1495-1563 | the block a logical block is mapped to, 0 for a hole, nothing beyond the double indirect range |
| `Ext2Tree.WhereMapped` | src/fs/ext2.c:1495-1563 | the first 12 blocks are named in the inode, the next in the block of its word 12, the rest two levels below word 13, by quotient and remainder |
| `Ext2Tree.LinkBlock` | src/fs/ext2.c:1150-1275 | a fresh block linked at an empty place changes the tree at that place only, and the blocks stay pairwise distinct and marked used |
| `Ext2Tree.FillDind` | src/fs/ext2.c:1213-1271 | the double indirect case allocates exactly the missing blocks on the way |
| `Ext2Tree.BmapAlloc` | src/fs/ext2.c:1150-1275 | succeeds exactly when enough blocks are free; the tree stays a tree of distinct used blocks; the free count moves by the blocks added and i_blocks by their 512-byte sectors, and a failed call counts one block too many |
| `Ext2Tree.DeltaSectors` | src/fs/ext2.c:1161 | what i_blocks changes by per block is the block in sectors of 512 bytes |
| `Ext2Tree.MappingAfterAlloc` | src/fs/ext2.c:1150-1275 | after a successful call the logical block is mapped to the result and every other mapping is unchanged |
| `Ext2Truncate.KeptData` | src/fs/ext2.c:1045-1148 | a data pointer survives truncation exactly if its logical block lies below the new end |
| `Ext2Truncate.FreeInd` | src/fs/ext2.c:1015-1043 | frees exactly the block and everything below it, at every level |
| `Ext2Truncate.CutDirect` | src/fs/ext2.c:1056-1063 | clears and frees the direct pointers beyond the new end |
| `Ext2Truncate.CutInd` | src/fs/ext2.c:1065-1091 | frees the single indirect block whole, or its tail |
| `Ext2Truncate.CutDindTail` | src/fs/ext2.c:1099-1144 | cuts the double indirect block at the entry where the new end falls |
| `Ext2Truncate.Truncate` | src/fs/ext2.c:1045-1148 | for every 64-bit size, with both block counts cut to 32 bits as in the code: faults exactly when the loop over the direct pointers starts below 0; otherwise exactly the pointers that the cut counts spare survive, the bits cleared and the rise of the free counts are exactly the blocks dropped from the tree, and i_blocks falls by their 512-byte sectors |
| `Ext2Truncate.Delete` | src/fs/ext2.c:348-415 | gives back every block of the tree and nothing else, and clears the inode |
| `Ext2File.StepCell` | src/fs/ext2.c:837-912 | one round of the write loop changes the bytes of its chunk and no other mapped byte |
| `Ext2File.PositionSplit` | src/fs/ext2.c:849-852 | a byte position is its logical block and the offset in it |
| `Ext2File.Write` | src/fs/ext2.c:837-912 | at every position, cut to 32-bit block numbers as in the code: the bytes written read back there, every other byte of a mapped block and every untouched hole is unchanged, other files are untouched, the size becomes the maximum, the 32-bit size on disk is its remainder; a write beyond the double indirect range fails, one inside it fails only on a full volume |
| `Ext2File.Read` | src/fs/ext2.c:771-835 | returns the bytes of the file at the position, cut to 32-bit block numbers as in the code, zeros for holes, as many as the size and the 64-bit sum of position and length allow; fails exactly at the first byte beyond the double indirect range |
| `Ext2File.WriteThenRead` | src/fs/ext2.c:771-912 | after a successful write, a read at the same position succeeds and returns the data written, for any position, alignment and length |
| `Ext2File.RangeInReach` | src/fs/ext2.c:837-912 | the whole double indirect range has 32-bit block numbers, for blocks below 256 KiB |
| `Ext2File.WroteInPlaceIff` | src/fs/ext2.c:837-912 | a write that changes its first byte happens at its own position exactly when that is below 2^32 blocks |
| `Ext2File.WriteAtReach` | src/fs/ext2.c:837-912 | a byte written at 2^32 blocks becomes the first byte of the file |
| `Ext2Resize.PreciseIff` | src/fs/ext2.c:1045-1148 | truncation keeps exactly the pointers below the new end, for every file of the given sizes and without a fault, exactly when the 32-bit cut of the two counts does no harm, a condition on the sizes alone |
| `Ext2Resize.UncutIsExact` | src/fs/ext2.c:1045-1148 | where it does no harm, the tree after the call is the old one cut to the new block count, and no direct pointer lies beyond the new end |
| `Ext2Resize.BlocksHold` | src/fs/ext2.c:1051-1052 | the blocks counted for a size hold all its bytes, and none lies beyond the end |
| `Ext2Resize.CutShows` | src/fs/ext2.c:1045-1148 | elsewhere every file with a pointer in a place that is treated wrongly shows it |
| `Ext2Resize.SetSize` | src/fs/ext2.c:610-636 | any 64-bit length: growing changes the size only, shrinking truncates; where the counts are not harmed the tree is cut exactly and no direct pointer is left beyond the end, which every later call relies on |
| `Ext2Resize.WriteKeepsEnd` | src/fs/ext2.c:837-912 | a write at any position leaves no direct pointer beyond the end of the file either |
| `Ext2Resize.CutCounts` | src/fs/ext2.c:1047-1057 | with 1 KiB blocks 2^42 bytes are seen as no block at all, and a cut from 2^41 + 1024 to 2^41 bytes faults |
| `Ext2Resize.HugeThenNothing` | src/fs/ext2.c:1045-1063 | a file set to 2^42 bytes and then to 0 keeps all its direct blocks |
| `Ext2Resize.HugeThenLess` | src/fs/ext2.c:1065-1148 | a file set to 2^43 bytes and then to 2^42 loses both indirect trees |
| `Ext2Resize.BytesAfterCut` | src/fs/ext2.c:1045-1148 | after an exact cut the bytes of the remaining blocks are as before and all others read as zero |
| `Ext2Resize.ShrinkThenGrow` | src/fs/ext2.c:610-636 | a file that is cut and let grow again reads zeros past the cut exactly when the rest of its last block was zero before |
| `Ext2Resize.StaleByte` | src/fs/ext2.c:610-636 | a byte at a cut inside a block is still there afterwards |
| `Ext2Directory.ChainSplit` | src/fs/ext2.c:1315-1476 | two chains of records that meet form one, and their entries concatenate |
| `Ext2Directory.AddInBlock` | src/fs/ext2.c:1337-1382 | reuses a free record or splits a long one: the block stays a chain of records that hold their names, with exactly one more entry; refused exactly when no record has room |
| `Ext2Directory.RemoveInBlock` | src/fs/ext2.c:1434-1472 | clears or merges the first record with the inode: the block stays a chain with exactly that entry gone |
| `Ext2Directory.LookupInBlock` | src/fs/ext2.c:417-473 | the first entry of a block with the name |
| `Ext2DirectoryFile.Add` | src/fs/ext2.c:1315-1416 | adds exactly one live entry to the directory, in place and without taking a block when a record has room, else in a block taken from the volume; fails exactly when no record has room and the tree cannot be extended; other files keep their blocks |
| `Ext2DirectoryFile.Remove` | src/fs/ext2.c:1418-1476 | removes exactly the first live entry with the inode and leaves room for an entry of its length; fails exactly when there is none; other files keep their blocks |
| `Ext2DirectoryFile.RemoveThenAdd` | src/fs/ext2.c:1315-1476 | an entry whose name is no longer than that of an entry just removed is added in place: the directory takes no block |
| `Ext2DirectoryFile.Lookup` | src/fs/ext2.c:417-473 | the inode of the first live entry with the name |
| `Ext2DirectoryFile.Readdir` | src/fs/ext2.c:918-997 | position n yields the n-th live entry and moves on by one; fails exactly at the end or when the buffer is too small |
| `Ext2DirectoryFile.ReadAll` | src/fs/ext2.c:918-997 | repeated calls from the start until one fails yield every live entry once, in order |
| `Ext2Directory.LookupAfterAdd` | src/fs/ext2.c:417-473 | after an add, lookup finds the new name and all other names as before |
| `Ext2Directory.RemoveUndoesAdd` | src/fs/ext2.c:1315-1476 | removing an added entry whose inode is not otherwise present restores the directory |
| `Ext2DirectoryFile.Grow` | src/fs/ext2.c:1384-1415 | a further block for a directory exactly when the tree can be extended; its bytes are the file from the old end on; the blocks before it and other files are untouched |
| `Ext2DirectoryFile.CountHolds` | src/fs/ext2.c:1322 | the blocks of a directory hold all its bytes, and none lies beyond its end |
| `Ext2DirectoryFile.BlockBytes` | src/fs/ext2.c:1327-1333 | block k of a directory is the bytes of the file from k blocks on, zeros for a hole |
| `Ext2Directory.LittleEndian` | src/fs/ext2.c:1360-1367 | the numbers of a record have their lowest byte first |
| `HeapBlocks.AlignedHolds` | src/mm/heap.c:23 | the rounded request covers the request exactly for sizes up to 0xfffff000; above that the 32-bit sum wraps to 0 |
| `HeapBlocks.TakenOk` | src/mm/heap.c:24-68 | an allocation keeps the blocks a gap-free, overlap-free tiling of the window with no two free neighbours and used blocks below the mark |
| `HeapBlocks.GivenBackOk` | src/mm/heap.c:76-141 | a free keeps the same |
| `HeapBlocks.GiveBackUndoesTake` | src/mm/heap.c:20-141 | freeing the block just allocated restores the blocks |
| `HeapBlocks.LiveBlocksDisjoint` | src/mm/heap.c:20-73 | two blocks share no byte and have different start addresses |
| `HeapBlocks.WrappedRequestBreaksTiling` | src/mm/heap.c:23-45 | a request above 0xfffff000 would put an empty block on the list |
| `LinkedList.InsertOk` | src/mm/heap.c:35-44 | linking a node in keeps a doubly linked list walkable both ways, holding exactly the old nodes and the new one |
| `LinkedList.RemoveOk` | src/mm/heap.c:46-60 | linking the neighbours of removed nodes keeps the list of the others |
| `KernelHeap.Heap.constructor` | src/mm/heap.c:9-16 | one free block fills the window and nothing is mapped |
| `KernelHeap.Heap.Split` | src/mm/heap.c:27-44 | cutting a node puts a used node in front of it and keeps both lists |
| `KernelHeap.Heap.MapUpTo` | src/mm/heap.c:61-67 | the pages up to the new mark are mapped, each exactly once |
| `KernelHeap.Heap.Alloc` | src/mm/heap.c:20-73 | takes the low end of the first fitting block; fails exactly when none fits or the only free block fits exactly; both lists, the tiling and the mapped pages stay consistent |
| `KernelHeap.Heap.MergeBoth` | src/mm/heap.c:82-92 | three nodes become one on both lists |
| `KernelHeap.Heap.MergeRight` | src/mm/heap.c:100-109 | the following free node takes over the freed one |
| `KernelHeap.Heap.Relist` | src/mm/heap.c:110-136 | a node with used neighbours returns to the free list at its address |
| `KernelHeap.Heap.Free` | src/mm/heap.c:76-141 | joins the block at the address with its free neighbours; fails exactly when no used block starts there |
| `KernelHeap.Heap.AllocThenFree` | src/mm/heap.c:20-141 | an allocation and the free of its result leave the blocks as they were |
| `Slabs.HintIsFirst` | src/mm/slab.c:60-84 | the slab and bit the hints name are the first free object of the class |
| `Slabs.NextClear` | src/mm/slab.c:65-73 | the search for the next clear bit succeeds whenever one is counted, so its halt is unreachable |
| `Slabs.Alloc` | src/mm/slab.c:56-152 | hands out the first free object and keeps both hints exact; adds a slab exactly when the last object goes; fails exactly when that slab cannot be had |
| `Slabs.Free` | src/mm/slab.c:171-229 | clears exactly the object's bit and keeps both hints exact; a small class refuses objects that are not handed out |
| `Slabs.FreeUndoesAlloc` | src/mm/slab.c:51-231 | freeing the object just handed out restores the slabs there were |
| `AddressMap.ClassShape` | src/mm/slab.c:12-20 | the objects of each class tile its slabs and the slabs fit the class's area |
| `AddressMap.CellsApart` | src/mm/slab.c:60-106 | different objects of a class share no byte |
| `AddressMap.HeadersAvoided` | src/mm/slab.c:60-62 | no object touches the header at the start of a small slab |
| `AddressMap.KindsApart` | src/mm/slab.c:156-169 | objects of different classes, pages and heap blocks share no byte |
| `AddressMap.Dispatch` | src/mm/slab.c:171-248 | the allocator, slab and object an address is routed to |
| `AddressMap.RouteBack` | src/mm/slab.c:171-248 | the address of every object, page and heap block is routed back to the allocator it came from |
| `Kmalloc.AddNode` | src/mm/slab.c:51-154 | handing out an object keeps every 64-byte object either a result, a heap node or a slab header, and only one of these |
| `Kmalloc.DropNode` | src/mm/slab.c:171-231 | taking a heap node back keeps the same |
| `Kmalloc.Allocator.constructor` | src/mm/slab.c:22-49 | the state after the slab and heap initialisation accounts for its three internal objects |
| `Kmalloc.Allocator.FromSlab` | src/mm/slab.c:51-154 | an object of the smallest class that holds the request; a new middle slab also takes a header object; tells exactly which classes get a slab and when the lock is taken twice; fails exactly when a needed slab cannot be had |
| `Kmalloc.Allocator.FromHeap` | src/mm/slab.c:163-165 | a heap block of at least the request, with a node from the 64-byte class when a block is cut; the mapped end rises exactly to the end of the block; fails exactly when the heap refuses or the node cannot be had |
| `Kmalloc.Allocator.Kmalloc` | src/mm/slab.c:156-169 | a new live result of at least the requested size from the allocator for that size; fails exactly when that allocator is exhausted; the classes that get a slab, the rise of the heap and the calls that take the lock twice are functions of the state and the size |
| `Kmalloc.Allocator.Kfree` | src/mm/slab.c:233-248 | every live result goes back to the allocator that made it; no other result is affected, and no halt is reached |
| `Kmalloc.Allocator.LiveApart` | src/mm/slab.c:51-248 | all live results are pairwise disjoint |
| `Kmalloc.Allocator.KernelObjectsApart` | src/mm/slab.c:51-248 | live results are disjoint from heap nodes and slab headers |
| `KernelMemory.Memory.Boot` | src/mm/slab.c:22-49 | the pages of the first slabs are mapped in the page tables to different frames; the machine halts exactly when the free frames do not suffice for the pages and the tables they lack |
| `KernelMemory.Memory.Allocate` | src/mm/slab.c:51-169 | the pages that the state and the size say a request adds are mapped to frames of the allocator that also hands out whole pages; the free frames fall by exactly those pages, the tables they lack and a whole page handed out; halts exactly when the layer above is starved or these frames are not there; no page changes its frame |
| `KernelMemory.Memory.MapPage` | src/mm/slab.c:51-169 | one page takes a frame and one for each table it lacks, and halts exactly when there are fewer; no other page of the areas changes |
| `KernelMemory.Memory.MapAll` | src/mm/slab.c:51-169 | pages mapped one after another take a frame each and one for each table that at least one of them lacks |
| `KernelMemory.BootCost` | src/mm/slab.c:22-49 | after the slab areas have got their empty tables, booting takes 197 frames for pages and 14 for tables |
| `KernelMemory.Memory.Release` | src/mm/slab.c:233-248 | every page keeps its frame, every frame stays with one page, and no page table is freed |
| `KernelMemory.Memory.PhysicallyApart` | src/mm/slab.c:51-248 | every byte of a live result has a physical byte, directly or through the page tables, and no two bytes of live results share one |
| `TaskPlacement.PlacedOnce` | src/task/task.c:206-260 | a task that is not an idle task is in exactly one place: one CPU, one position of one ready list, one position of one wait queue, or the grave |
| `TaskPlacement.IdleNeverQueued` | src/task/task.c:206-260 | idle tasks are on no ready list and no wait queue |
| `TaskPlacement.SwitchOk` | src/task/task.c:206-227 | a switch completes the placement of a CPU whose task has been put elsewhere |
| `TaskPlacement.WakeFirstOk` | src/lib/waitqueue.c:45-54 | a woken task moves from its queue to the ready list of its CPU |
| `TaskPlacement.WakeAllOk` | src/lib/waitqueue.c:33-43 | waking everyone empties the queue and loses nobody |
| `TaskPlacement.MigrateOk` | src/machine/time.c:204-217 | a migrated task is on the new CPU's list only, and its cpuid says so |
| `LazyFpu.SeesOwnRegisters` | src/task/task.c:195-204 | an FPU instruction that does not trap finds the registers its task left |
| `LazyFpu.TrapRestoresRegisters` | src/protect.c:178-191 | one that traps finds them after the handler |
| `LazyFpu.SwitchFpuOk` | src/task/task.c:195-227 | a switch keeps every task's registers in its CPU or its save area |
| `LazyFpu.ForkFpuOk` | src/task/task.c:516-522 | a forked child has its parent's registers |
| `LazyFpu.ExecFpuOk` | src/task/task.c:476-480 | exec drops the registers of the running task and of nobody else |
| `LazyFpu.MigrateFpuOk` | src/machine/time.c:204-217 | migration keeps every task's registers |
| `Scheduler.StepPlaced` | src/task/task.c:162-379 | every step of the scheduler, migrations between any two CPUs that differ by 2 included, keeps every task in one place |
| `Scheduler.StepFpu` | src/task/task.c:195-522 | every step refines the machine in which each task has FPU registers of its own |
| `Scheduler.EveryRun` | src/task/task.c:162-534 | in every state of every run from a booted machine: one place per task, idle tasks on no list, ready counters equal list lengths, queued tasks carry their CPU's number, the registers of a CPU with TS clear are those its task left, and a dirty task runs on a CPU with TS clear |
| `Scheduler.ScheduleKeepsPlacementIff` | src/task/task.c:254-260 | schedule() called on its own keeps placement exactly when the idle task runs; the losing waiter of mutex_lock therefore loses its place |
| `Scheduler.PreemptForgetsZombie` | src/task/task.c:303-306 | a timer interrupt between marking a zombie and its last schedule() undoes the mark, after which that schedule() is the bare call |
| `Scheduler.YieldKeepsPlacementIff` | src/task/task.c:369-379 | sys_yield keeps placement unless the idle task calls it while others are ready |
| `Scheduler.SleepKeepsPlacementIff` | src/lib/waitqueue.c:12-21 | sleep_on keeps placement exactly when the caller is not an idle task |
| `Scheduler.BalanceLoads` | src/machine/time.c:247-295 | a balancing step moves one task, conserves the number of tasks and strictly lowers the sum of squared loads |
| `SchedulerCode.Kernel.ScheduleLocked` | src/task/task.c:206-227 | the first ready task, or the idle task, is on the CPU; every task's FPU registers survive; it completes the step of a task that found another place, and called alone it keeps placement exactly when the idle task runs |
| `SchedulerCode.Kernel.HandleFpuSse` | src/task/task.c:195-204 | the registers the outgoing task left are in its save area, every other task keeps its own, and no task changes its place |
| `SchedulerCode.Kernel.SysYield` | src/task/task.c:369-379 | the caller is last on its CPU's list, or runs on if it is alone; all FPU registers survive; placement is kept exactly unless the idle task calls it with work waiting |
| `SchedulerCode.Kernel.PreemptRunning` | src/machine/time.c:88-98 | placement and FPU registers are kept whoever runs; an ordinary task is last on its list, an idle one is not queued |
| `SchedulerCode.Kernel.SleepOn` | src/lib/waitqueue.c:12-31 | the caller is last on the wait queue; all FPU registers survive; placement is kept exactly when the caller is not an idle task |
| `SchedulerCode.Kernel.PutToReadyListFirst` | src/task/task.c:341-349 | first on its CPU's list, and no other task's place, state or FPU bookkeeping changes |
| `SchedulerCode.Kernel.WakeUpAll` | src/lib/waitqueue.c:33-43 | the queue is empty, everyone who waited is on the ready list of the CPU it last ran on, and placement and FPU registers are kept |
| `SchedulerCode.Kernel.WakeUpFirst` | src/lib/waitqueue.c:45-54 | the first waiter is first on the ready list of the CPU it last ran on, the others wait on, and placement and FPU registers are kept |
| `SchedulerCode.Kernel.SysExit` | src/task/task.c:303-306 | the caller is a zombie in no other place, nobody waits on the parent any more, and placement and FPU registers are kept |
| `SchedulerCode.Kernel.AddToReadyList` | src/task/task.c:162-173 | queues a new task on a CPU; refused exactly for an unknown CPU |
| `SchedulerCode.Kernel.ForkEnter` | src/task/task.c:495-534 | the child is first on CPU 0's list with its parent's registers, everyone else is as before; refused exactly for kernel tasks |
| `SchedulerCode.Kernel.ExecvReset` | src/task/task.c:473-480 | the caller has no FPU state and traps on its next FPU instruction; no other task's registers and nobody's place change |
| `SchedulerCode.Kernel.DeviceNotAvailable` | src/protect.c:166-191 | the instruction finds the registers its task left, or the initial ones, and nobody's place or other registers change; fatal exactly for kernel tasks |
| `SchedulerCode.Kernel.TaskTravel` | src/machine/time.c:204-217 | the last ready task of one CPU is last on the other's list and carries its number; placement, FPU registers and the number of tasks are kept |
| `SchedulerCode.Kernel.TasksTravel` | src/machine/time.c:247-265 | under the locks a task moves exactly when the two CPUs differ by at least 2 at that moment, and the loads change by that move |
| `SchedulerCode.Kernel.BalanceOn` | src/machine/time.c:267-295 | whatever was read without locks, a task moves exactly when the pair chosen from those readings still differs by 2 under the locks |
| `LoadBalance.Scan` | src/machine/time.c:269-286 | finds the highest and lowest load and the first CPUs that have them |
| `LoadBalance.Choose` | src/machine/time.c:267-294 | from the counters read, the pair with the calling CPU and the first CPU of extreme load; no pair is missed |
| `LoadBalance.MoveConverges` | src/machine/time.c:247-295 | a move between loads that differ by 2 or more conserves the total and strictly lowers the sum of squares |
| `LoadBalance.BalancingEnds` | src/machine/time.c:247-295 | any sequence of moves between uneven CPUs conserves the number of tasks and is no longer than the sum of squared loads |
| `LoadBalance.SpreadShrinks` | src/machine/time.c:247-295 | a move between any two uneven CPUs never widens the spread between highest and lowest load |
| `LoadBalance.AtRestIff` | src/machine/time.c:247-295 | no undisturbed call on any CPU moves a task exactly when the spread is at most 1 |
| `LoadBalance.RestIsStable` | src/machine/time.c:247-265 | whatever was read, no call can move a task exactly when the spread is at most 1 |
| `SchedulerCode.Kernel.Perform` | src/task/task.c:162-534 | whatever step may happen, the kernel code for it makes exactly that step, leaves every task in one place and gives every task the FPU registers of the reference machine |
| `SchedulerCode.Kernel.KernelThread` | src/task/task.c:51-63 | the new task is first on the given CPU's list without FPU state, and placement and all other registers are kept |
| `Mutex.StepOk` | src/lib/lock.c:83-133 | every atomic step of lock, unlock, trylock and the woken retry keeps the lock word true to ownership, the queue lock exclusive and the wait queue exact |
| `Mutex.MutualExclusion` | src/lib/lock.c:83-133 | from the initial state over every interleaving of any number of tasks at most one owns the mutex, and the lock word is set exactly when one does |
| `Mutex.StepAttended` | src/lib/lock.c:83-124 | every step keeps a free mutex with waiters attended: some task is about to wake one or has been woken and has not yet retried |
| `Mutex.NoLostWakeUp` | src/lib/lock.c:83-124 | over every interleaving from the initial state a free mutex with waiters has a task that is about to wake one or about to retry |
| `Mutex.LostForever` | src/lib/lock.c:104-107 | a task whose retry finds the mutex taken never gets it, whatever the others do |
| `Mutex.WokenButLost` | src/lib/lock.c:83-124 | an interleaving of two tasks in which the woken one is lost while the mutex ends up free |
| `RwLock.StepOk` | src/lib/lock.c:146-189 | every atomic step keeps the reader count and the writer flag true |
| `RwLock.WritersExclude` | src/lib/lock.c:146-189 | from the initial state over every interleaving the reader count is the number of readers and a writer excludes all readers and other writers |
| `Paths.Lookup` | src/fs/fs.c:93-237 | walks the components of a path from the root or the start, through "." and ".." and across mounts |
| `Paths.StepUp` | src/fs/fs.c:128-154 | ".." goes to the dentry above, out of a mounted file system to the parent of its mount point |
| `Paths.DotDotDropsName` | src/fs/fs.c:93-237 | for every dentry but the root, "/.." behind its path leads to a dentry with the same names but the last, across mounts |
| `Paths.DotsStay` | src/fs/fs.c:122-154 | at the root ".." stays, and "." stays everywhere, up to what is mounted there |
| `Paths.RelativeStart` | src/fs/fs.c:103-108 | a relative path leads from a dentry to where the path of the dentry with the relative one behind it leads |
| `Paths.AbsoluteAnywhere` | src/fs/fs.c:103-108 | a path that starts with a slash leads to the same place from everywhere |
| `Paths.NextToken` | src/fs/fs.c:117-232 | yields the components of a path in order, skipping repeated slashes |
| `Paths.GetCwd` | src/fs/fs.c:1804-1877 | writes exactly the path of the working directory and a terminator, total being the number of characters before it; fails exactly when the buffer is too small, and then writes nothing |
| `Paths.Collect` | src/fs/fs.c:1816-1836 | collects the dentries from the working directory up, stepping from mounted roots to their mount points |
| `Paths.TotalLength` | src/fs/fs.c:1838-1852 | the length computed beforehand is the length of the path |
| `Paths.TokensOfPath` | src/fs/fs.c:1858-1874 | the components of a printed path are the names it was built from |
| `Paths.WalkNames` | src/fs/fs.c:93-237 | walking the names of a dentry that nothing is mounted on ends at it, across nested mounts |
| `Paths.NamesOfWalk` | src/fs/fs.c:93-237 | a dentry reached by names is shown as those names |
| `Paths.ResolveUndoesPrint` | src/fs/fs.c:93-237 | resolving the path getcwd prints gives the dentry back |
| `Paths.PrintUndoesResolve` | src/fs/fs.c:1804-1877 | printing what a printed-form path resolves to gives the path back |
| `Descriptors.CloseSlotOk` | src/fs/fs.c:669-676 | closing a slot keeps every file's reference count equal to the number of slots that hold it, pipes held by their open ends, and every file and pipe ever made either open or ended once |
| `Descriptors.ShareOk` | src/fs/fs.c:1754-1768 | another slot for an open file keeps the same |
| `Descriptors.NewPipeOk` | src/fs/pipe.c:141-184 | a new pipe with two files keeps the same |
| `Descriptors.FreedAfterBothEnds` | src/fs/pipe.c:72-81 | a freed pipe has no open end |
| `Descriptors.StepOk` | src/fs/fs.c:643-676 | every open, pipe, dup, dup2, fork, close, exec and reap keeps counts, pipes and logs right |
| `Descriptors.EveryRun` | src/fs/fs.c:643-676 | at every call boundary of every run from the empty table each file's count is the number of slots that hold it; each file ever made is open or was released exactly once; each pipe ever made is held by its open ends or was freed exactly once with both ends gone |
| `Descriptors.Table.FdAlloc` | src/fs/fs.c:643-650 | the lowest free descriptor, or none when all are taken |
| `Descriptors.Table.VfsClose` | src/fs/fs.c:918-945 | one reference less; the last one releases the file, and the last end of a pipe frees its buffer and inode |
| `Descriptors.Table.FdClose` | src/fs/fs.c:669-676 | empties the slot and drops its reference; fails exactly for a descriptor that is not open |
| `Descriptors.Table.SysOpen` | src/fs/fs.c:1143-1159 | the new file is in the lowest free slot, or is released at once when there is none |
| `Descriptors.Table.SysPipe` | src/fs/pipe.c:141-197 | two new files on one new pipe in the two lowest free slots; without two free slots, or when one of the four allocations fails, nothing changes |
| `Descriptors.Table.SysDup` | src/fs/fs.c:1754-1768 | the lowest free slot shares the file |
| `Descriptors.Table.SysDup2` | src/fs/fs.c:1770-1802 | the target slot shares the file and whatever it held is closed |
| `Descriptors.Table.ForkFiles` | src/task/task.c:508-514 | the child holds the same file in every slot and every count rises with it |
| `Descriptors.Table.ExecFiles` | src/task/task.c:466-472 | closes the program file and every descriptor from 3 on |
| `Descriptors.Table.ReapFiles` | src/task/task.c:357-361 | a reaped task holds no slot, and every other slot is as before |
| `Descriptors.Table.Perform` | src/fs/fs.c:643-676 | the code of every call makes exactly the step of the run |
| `Printf.ValueOfDigits` | usr/pub/printf.c:286-310 | reading the digits of a 64-bit number in the same base gives it back |
| `Printf.SignedRoundTrip` | usr/pub/printf.c:206-232 | for every 64-bit value, %ld reads back what %ld printed |
| `Printf.UnsignedRoundTrip` | usr/pub/printf.c:222-269 | for every 64-bit value, %lu, %lx and %lo read back what they printed, and %lx what %lX printed |
| `Printf.PrefixedRoundTrip` | usr/pub/printf.c:374-410 | for every 64-bit value, %li reads back what %#lx and %#lo printed |
| `PrintfTrips.IntRoundTrip` | usr/pub/printf.c:141-143 | for every 32-bit pattern, %d, %i and %ld read back the int that %d printed |
| `PrintfTrips.IntBitsRoundTrip` | usr/pub/printf.c:147-157 | for every 32-bit pattern, %x and %o read back the bits that %x, %X and %o printed |
| `PrintfTrips.UnsignedIntRoundTrip` | usr/pub/printf.c:144-146 | %u prints an int with its sign extended to 64 bits: %lu reads these back, and %u the 32 bits |
| `PrintfTrips.ShortRoundTrip` | usr/pub/printf.c:158-180 | for every 16-bit pattern, the h conversions read back what they printed |
| `PrintfTrips.ListRoundTrip` | usr/pub/printf.c:25-277 | a list of ints of any length, printed with blanks between them, is read back in order by the same format |
| `PrintfTrips.PointerReadsZero` | usr/pub/printf.c:479-488 | %p reads 0 from whatever %p printed, as it stops at the x of the prefix; %li reads the pointer |
| `PrintfTrips.TextConversions` | usr/pub/printf.c:38-57 | %s writes its text or (null), %c its character, %% a percent sign |
| `PrintfTrips.TextRoundTrip` | usr/pub/printf.c:462-478 | %s reads a word without white space back whole, %c one character |
| `PrintfTrips.PlainText` | usr/pub/printf.c:270-274 | text without percent signs is copied |
| `PrintfTrips.NextArgument` | usr/pub/printf.c:36-205 | a conversion takes the next argument, and %% takes none |
| `PrintfTrips.UnknownDropped` | usr/pub/printf.c:202-204 | a percent sign before a character that starts no conversion is dropped |
| `PrintfTrips.HexHeaders` | usr/pub/printf.c:247-250 | the # flag puts 0x before hexadecimal digits, and %p is %#lx |
| `PrintfTrips.OctalHeaders` | usr/pub/printf.c:264-266 | the # flag puts 0 before octal digits |
| `PrintfTrips.LetterCase` | usr/pub/printf.c:236-246 | digits are 0 to 9, then a to f for %x and A to F for %X |
| `PrintfTrips.Spaces` | usr/include/uctype.h:5-7 | white space is the blank and the control characters from tab to carriage return |
| `PrintfTrips.AsSignedIs` | usr/pub/printf.c:141-166 | a signed value has the bits of the argument and fits its type |
| `PrintfCode.DigitsBackwards` | usr/pub/printf.c:223-227 | the digit loops fill at most 22 of the 32 places of numbuf with exactly the digits |
| `PrintfCode.LeastDecimal` | usr/pub/printf.c:23 | the constant written for the least 64-bit number is its decimal text |
| `PrintfCode.ParseConversion` | usr/pub/printf.c:36-205 | recognises exactly the conversions of the format language, and takes the characters it says |
| `PrintfCode.Format` | usr/pub/printf.c:25-277 | for every format and size at least 1: terminates, writes exactly the text of the format cut to size - 1 characters and a terminator, and nothing at or past size |
| `PrintfCode.Str2Uint` | usr/pub/printf.c:286-310 | the value and number of the leading digits, in 64-bit arithmetic |
| `PrintfCode.ScanText` | usr/pub/printf.c:312-505 | stores exactly the values the format reads, in order, and tells exactly when the source would step past the end of a cut-off format |
| `PrintfCode.CompleteNeverOverruns` | usr/pub/printf.c:494-497 | a format without a cut-off conversion at its end is never overrun, whatever the text |
| `PrintfCode.LonePercentOverruns` | usr/pub/printf.c:494-497 | the format of one percent sign is overrun by exactly the texts that are more than white space |
| `PrintfCode.CutOffButSafe` | usr/pub/printf.c:494-497 | that condition is not necessary: a cut-off format after a literal digit that cannot match is never overrun |
| `PrintfCode.FormatThenScan` | usr/pub/printf.c:25-505 | what the formatter wrote into a buffer that holds it, the scanner reads back as the same number of 64, 32 or 16 bits, for nineteen pairs of conversions |

## Left out

- Device drivers, interrupt controllers, timers and firmware tables: registers and DMA. The disk is a sequence of blocks.
- The context switch itself: saving one stack pointer and resuming another is part of the scheduler step.
- TLB invalidation, 2 MiB mappings made by `put_page_2M`, and the copy-on-write flag.
- I/O errors and allocation failures inside ext2 operations, inode bitmaps, timestamps and triple indirect blocks (which the source does not implement).
- Writing bitmaps and descriptors through to disk: the model keeps the in-memory copies the source keeps.
- Entries of the reference table beyond the last memory area: the source leaves them unset; the model reserves them.
- Zero-fill of new data blocks: the source does not do it, so nothing is claimed of unwritten bytes in a block that was a hole.
- Path lookup that asks a file system for names that are not in the tree, and the caches of dentries and inodes with their counts: the name tree is given.
- Pipe data transfer and sleep/wake liveness of pipes and `waitpid`.
- The `mem_linear2phy_get` path that allocates on a miss, the ELF loader, UUID handling and the user-space allocator.
- Floating-point formatting: the text of a floating-point argument is given; that it is cut to the buffer is proved.
- Kmalloc.Allocator.Kfree: stated for addresses of live results only; a middle class does not look at the bit of what it frees, so nothing can be said of other addresses.
- Slabs.Free: requires a live object in the middle classes, for the same reason.
- Ext2Truncate.Truncate: requires blocks below 256 KiB, and sizes at least one block below 2^63, where rounding up would overflow a signed 64-bit number in the source.
- Paths.GetCwd: stated for at most 256 components, the size of the source's array.
- IoRemap.Unmap: stated for addresses in the device window, where `io_remap` puts its mappings.
- Fork.FreePageTable: requires the frames of the address space to be distinct and neither free nor reserved; the source halts on a frame that is not.
- Ext2Volume.Volume.FreeBlock: requires a block marked used to be a block of the disk other than block 0, as the blocks of a tree are.
- Ext2Truncate.Delete: does not model the inode bitmap and the release of the inode number.
- Ext2File.Read: requires a position below 2^63, what a signed 64-bit position can be.
- Ext2DirectoryFile.Add: requires names of at most 255 bytes, what a record's length byte can hold, and blocks of at most 32 KiB, where the source's 16-bit arithmetic is exact; all directory blocks lie in the range of the tree.
- KernelHeap.Heap.Alloc: requires requests of at most 0xfffff000 bytes; `HeapBlocks.WrappedRequestBreaksTiling` states what happens above.
- KernelHeap.Heap.MapUpTo: records the pages it maps; their frames are in `KernelMemory`.
- Slabs.Alloc: `room` stands for the pages of a new slab; `KernelMemory.Memory.Allocate` takes their frames.
- Kmalloc.Allocator.Kmalloc: `room` as in `Slabs.Alloc`; requests of at most 0xfffff000 bytes as in the heap; calls that take the lock twice return with `relocks`, where the source hangs.
- KernelMemory.Memory.Allocate: frames for new pages are taken after the books of the slabs and the heap are updated, where the source does both slab by slab; requests of at most 0xfffff000 bytes as in the heap.
- Paths.Lookup: a name that is not in the given tree is an error; the source asks the file system.
- Scheduler.EveryRun: exit is one step; what an interrupt inside it does is stated by `Scheduler.PreemptForgetsZombie`.
- Paths.DotDotDropsName: requires that the root of a file system has no parent and that the dentry a file system is mounted on names it (`Paths.MountsOk`), as mounting and unmounting leave them.
- Ext2Tree.DeltaSectors: speaks of block sizes that are a multiple of 512 bytes; ext2 blocks have at least 1024.
