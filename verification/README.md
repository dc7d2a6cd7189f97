# MunkOS kernel: verified models

Dafny models of the data structures, allocators, caches and small protocols of the MunkOS
x86-64 kernel, with proofs of what the kernel relies on them for. `dafny verify dfyconfig.toml`
verifies the whole project.

Pointer structures are modelled as the kernel writes them: records live at integer addresses
(or page numbers), link fields are maps from addresses to addresses, `NULL` is -1, and each
pointer write of the C code is a write to one of these maps. Ghost sequences, trees and maps say
what the links spell out; `Links.dfy` states once what each pattern of list writes does. Three
kinds of chains are sequences instead: the collision chains of the NVMe hash map, the three slab
lists of a cache, and the sibling lists of tasks. A `kpanic` is a `panics` result where it can
fire, and an `assert false` where it cannot.

| files | kernel part |
|---|---|
| `Bits`, `BuddyModel`, `BuddyRun`, `BuddyInit`, `Buddy` | buddy frame allocator |
| `EarlyMem` | boot memory map |
| `RbModel`, `RbMemory`, `RbTree` | red-black tree with parent pointers and a shared sentinel |
| `PathCache` | one directory of the pathname cache, on the red-black tree |
| `NvmeIndex`, `NvmeView`, `NvmeLru`, `NvmeBytes`, `NvmeCache`, `NvmeTransparency` | NVMe block cache: LRU list and hash map, what the device shows, replacement order, byte ranges, write-back, the plain disk beside it |
| `NvmeRing` | NVMe submission and completion rings (sections 4.1 and 4.6 of the NVM Express 1.4 specification) |
| `PageTable`, `Mmu`, `MmuRange`, `MmuMap` | four-level page tables (section 4.5 of the Intel SDM, volume 3A) |
| `SlabModel`, `SlabLists`, `SlabSteps`, `Slab` | kmalloc and kfree, on the buddy allocator |
| `RunQueues`, `Scheduler` | run, sleep and reap queues; task states |
| `Subscribers`, `Kevents` | kernel events, and the scheduling steps that use them |
| `TimerHeap`, `SystemTimers` | system timers; their events and the threads that sleep on them |
| `Boot` | the first tasks and the first context switches, and runs from there |
| `Links`, `Seqs`, `Arith`, `Options` | shared list, sequence and arithmetic facts |

## How the parts fit together

- Buddy: `FrameAllocator` is the pointer and bitmap code; its methods leave the lists that the
  functions `Carve` and `Merge` describe. `BuddyRun` proves the laws about these functions over
  all runs, and `Slab` uses both: the page blocks of the heap are live blocks of such a run.
- Red-black tree: `RbMemory` relates node records to a tree seen from any of its nodes (a subtree
  and its context). Each case of the two fix-up loops is a function on contexts whose balance and
  items are proved once (`...Fits`), and a method whose writes realise it.
- NVMe cache: the view of the cached device (a block is what its slot holds, or the disk) is
  unchanged by reads, evictions and write-backs while every clean block equals the disk
  (`Coherent`). `Kept` says what happens to a block nobody writes to in any state, coherent or not.
  `NvmeLru` gives the ages of the cached blocks after an access as a function, so that `Write` can
  tell beforehand which written bytes survive. `CachedDisk` keeps a plain disk beside the device,
  and `CacheIsTransparent` speaks about every run of calls that meet those contracts.
- Page tables: a ghost map says which table of the radix tree each frame is. A walk depends only
  on the entries on its way, so one write affects exactly one unit of addresses.
- Scheduler and events: one processor, and code with interrupts off is one atomic step.
  `kevents_poll` is two steps, `PollBegin` and `PollResume`, because it gives up the processor.
  `SystemTimers.Clock` puts the timer heap on top: a tick launches events, and no thread sleeps past
  its timer. `scheduler_sleep_for` is three steps, `Register`, `SleepPoll` and `SleepResume`; ticks
  and preemption may come in between.

## Where the code does less than it says

Each of these is stated exactly, with the condition under which the promised property holds.

- Touching usable regions are cut separately, which can leave a mergeable pair on the free lists
  (`BuddyInit.PairsExactlyAtSplits`, `BuddyInit.TouchingRegionsStaySplit`).
- `psize2order` rounds down, so a large kmalloc can get a block that is too small
  (`Slab.PageOrderFits`, `Slab.PageBlockTooSmall`).
- `mmu_map_range_linear` drops the sign of the offset (`MmuMap.RangeStartsAtBase`), and stops at a
  large page that the offset does not allow.
- `nvme_read` and `nvme_write` compute a wrapped last block below 512 bytes
  (`NvmeBytes.BlockHiExact`).
- A partial block of `nvme_write` is copied into a cached block without marking it. It is kept
  exactly if the block is dirty already, or nothing changes; for the last block also only if it is
  still cached when the blocks before it have been written (`NvmeCache.Namespace.WritePartial`,
  `NvmeCache.Namespace.Write`). `NvmeCache.LoseByte` is a run on a fresh device in which a byte is
  lost, `NvmeBytes.PartialWriteLost` the state in which it happens.
- `nvme_write` does not look at the end of the device. A whole block beyond it stays in its slot
  for good (`NvmeBytes.PastEndStays`), and once that slot is the least recently used one every miss
  fails (`NvmeCache.Namespace.Evict`, `ReadBlock` and `PrepWrite`).
- The command id of a submission goes into the caller's copy of the command after the command is in
  the ring (`NvmeRing.QueuePair.SubmitCommand`).
- `tree_set_data_at` writes through a null pointer for a key that is not stored
  (`RbTree.RedBlackTree.SetDataAt`).
- Names with a NUL are compared up to it only (`PathCache.SameNameIff`).
- `early_mem_alloc` can write one record past its table (`EarlyMem.EarlyAllocator.Alloc`, and the run
  `EarlyMem.TableOverrun`), and the free-page statistic subtracts boot allocations twice
  (`EarlyMem.EarlyAllocator.Statistics`).
- Cleaning up a task kills its children where they stand (`Scheduler.KilledInPlace`,
  `Kevents.Kernel.Reap`, and the run `Boot.OrphanStaysQueued`).
- `scheduler_yield` of a task that does not sleep leaves a running task in a run queue
  (`Scheduler.YieldNeedsSleep`).
- `kevent_launch` panics without subscribers, and so does a tick at which a timer is due whose thread
  has been interrupted between setting it and polling (`SystemTimers.Clock.Tick`, and the run
  `Boot.TimerBeforePoll`).

## Model

| member | source | states |
|---|---|---|
| `BuddyRun.RunKeepsSound` | kernel/src/mm/frame_alloc.c:414-562 | over every run of allocations and releases of blocks that are out, each given page is either free or inside exactly one aligned block that is out; and if no two listed blocks form a mergeable pair at the start, none ever do |
| `BuddyRun.RunListsAreMaximal` | kernel/src/mm/frame_alloc.c:414-562 | if the lists had no mergeable pair at the start, after every run a block is listed exactly if it is a maximal naturally aligned block of order at most 10 inside the set of free pages |
| `BuddyRun.ReleasingAllRestores` | kernel/src/mm/frame_alloc.c:467-562 | a run after which nothing is out leaves every free list with the elements it started with |
| `BuddyRun.AllocationIsCompleteAndSound` | kernel/src/mm/frame_alloc.c:467-516 | after every run a block that is handed out is aligned, was wholly free and meets no block that is out; without pairs at the start, an allocation fails exactly if no aligned run of that many pages is free |
| `BuddyRun.AllocKeepsSound` | kernel/src/mm/frame_alloc.c:467-516 | one allocation keeps the partition of the given pages into free pages and blocks that are out, and creates no pair |
| `BuddyRun.FreeKeepsSound` | kernel/src/mm/frame_alloc.c:520-562 | one release keeps that partition, and leaves no new pair |
| `BuddyModel.ListsDependOnFreePages` | kernel/src/mm/frame_alloc.c:414-562 | history independence: consistent, pair-free lists over the same free pages are equal as sets |
| `BuddyModel.ListedIsMaximal` | kernel/src/mm/frame_alloc.c:414-562 | listed blocks are exactly the maximal ones |
| `BuddyModel.SearchIsComplete` | kernel/src/mm/frame_alloc.c:480-490 | some list from order o upwards is non-empty exactly if an aligned run of 2^o pages is free |
| `BuddyModel.CarveTakesBlock` | kernel/src/mm/frame_alloc.c:492-509 | repeated splitting takes exactly the pages of the returned block out of the free pages, and creates no pair |
| `BuddyModel.CarveIsSplitOff` | kernel/src/mm/frame_alloc.c:492-509 | list by list: the first block of the order found is gone, each list below it down to the order asked for has the upper half of one split as its new first entry, all others are as before |
| `BuddyModel.MergeReturnsBlock` | kernel/src/mm/frame_alloc.c:535-556 | repeated merging adds exactly the pages of the released block, and leaves no pair |
| `BuddyModel.MergeIsMergedInto` | kernel/src/mm/frame_alloc.c:535-556 | list by list: the block that contains the released one is the first entry of its list, the buddies it was merged with are gone, the next buddy was not listed, all other lists are as before |
| `BuddyModel.CountShrinks` | kernel/src/mm/frame_alloc.c:511 | the number of free pages falls by the size of an allocated block |
| `BuddyModel.CountGrows` | kernel/src/mm/frame_alloc.c:558 | the number of free pages grows by the size of a released block |
| `Bits.XorIsBuddy` | kernel/src/mm/frame_alloc.c:367-370 | flipping bit o of an aligned page number gives the other half of its pair |
| `Bits.FlipStatus` | kernel/src/mm/frame_alloc.c:332-343 | flipping a bit of the bitmap changes that bit and no other |
| `Buddy.PairOf` | kernel/src/mm/frame_alloc.c:332-355 | the bit of a pair compares membership of a block and of its buddy |
| `Buddy.FlipFollows` | kernel/src/mm/frame_alloc.c:332-355 | listing or unlisting one block and flipping its pair's bit keeps every bit equal to the XOR of the two memberships |
| `Buddy.FrameAllocator.constructor` | kernel/src/mm/frame_alloc.c:414-436 | the allocator before the memory map is cut: empty lists, all bits zero |
| `Buddy.FrameAllocator.ListLink` | kernel/src/mm/frame_alloc.c:289-295 | the entry is the first of its list, the other lists are as before |
| `Buddy.FrameAllocator.ListUnlink` | kernel/src/mm/frame_alloc.c:298-314 | removes exactly the entry, the other lists are as before; the panic on an empty head cannot fire for a listed entry |
| `Buddy.FrameAllocator.ListGet` | kernel/src/mm/frame_alloc.c:317-329 | takes the first entry, NULL exactly for an empty list |
| `Buddy.FrameAllocator.FlipAt` | kernel/src/mm/frame_alloc.c:347-349 | flips the pair bit of a page |
| `Buddy.FrameAllocator.StatusAt` | kernel/src/mm/frame_alloc.c:353-355 | reads the pair bit of a page |
| `Buddy.FrameAllocator.GetBuddy` | kernel/src/mm/frame_alloc.c:367-370 | the other half of the pair, for every aligned block |
| `Buddy.FrameAllocator.TakeFirst` | kernel/src/mm/frame_alloc.c:480-494 | the first entry of the first non-empty list, with its bit kept right |
| `Buddy.FrameAllocator.Split` | kernel/src/mm/frame_alloc.c:496-509 | one split lists the upper half and keeps all bits right; the invalid-split panic cannot fire |
| `Buddy.FrameAllocator.SplitDown` | kernel/src/mm/frame_alloc.c:496-509 | the splitting loop leaves the lists that Carve describes |
| `Buddy.FrameAllocator.Alloc` | kernel/src/mm/frame_alloc.c:467-516 | NULL exactly if the order is above 10 or no list from it upwards has an entry; otherwise the first entry of the first such list, with the upper halves of its splits first on the lists below; the free counter moves in step with the number of free pages |
| `Buddy.FrameAllocator.TryMerge` | kernel/src/mm/frame_alloc.c:535-553 | one merge step: the flipped bit tells exactly whether the buddy is listed, and it is then unlinked |
| `Buddy.FrameAllocator.MergeUp` | kernel/src/mm/frame_alloc.c:535-553 | the merging loop reaches the block and order that Merge describes |
| `Buddy.FrameAllocator.FreeBlock` | kernel/src/mm/frame_alloc.c:520-562 | panics exactly for a misaligned block; otherwise the block is merged with its buddies up to the first that is not listed and put first on its list, and the free counter moves in step |
| `BuddyInit.AlignmentOrder` | kernel/src/mm/frame_alloc.c:357-365 | the largest order up to 10 to which a page is aligned |
| `BuddyInit.SliceRange` | kernel/src/mm/frame_alloc.c:374-384 | the largest block that starts at low, is aligned and ends by high |
| `Buddy.FrameAllocator.LinkEntry` | kernel/src/mm/frame_alloc.c:437-450 | the slicing loop covers a usable entry exactly once with aligned blocks |
| `Buddy.FrameAllocator.FlipListed` | kernel/src/mm/frame_alloc.c:452-460 | the second loop makes the pair bits of an order right |
| `Buddy.FrameAllocator.Populate` | kernel/src/mm/frame_alloc.c:414-463 | the free pages are exactly those of the usable entries, all bits are right, and mergeable pairs stay exactly where two entries meet as PairsExactlyAtSplits says |
| `BuddyInit.PairsExactlyAtSplits` | kernel/src/mm/frame_alloc.c:437-450 | the cut leaves no mergeable pair exactly if no two regions meet at a page whose alignment, below order 10, both of them can use |
| `BuddyInit.SlicingLeavesNoPair` | kernel/src/mm/frame_alloc.c:437-450 | in particular, cutting non-touching regions leaves none |
| `BuddyInit.TouchingRegionsStaySplit` | kernel/src/mm/frame_alloc.c:437-450 | counterexample: two touching one-page regions leave a split pair that an allocation of order 1 does not find |
| `EarlyMem.EarlyAllocator.constructor` | kernel/src/mm/mem_init.c:45-88 | the copied map at the first usable entry with room for it, cut by the copy itself; the page total is where the highest entry ends, and the usable total the number of pages in usable entries |
| `EarlyMem.EarlyAllocator.Init` | kernel/src/mm/mem_init.c:45-95 | the copied map and the page array, disjoint from it and sized for the page total, which is where the highest entry ends; the panic is exactly the case that no usable entry of the copied map has room for the array |
| `EarlyMem.EarlyAllocator.Alloc` | kernel/src/mm/mem_init.c:99-130 | first fit: the returned range is disjoint from all earlier ones, bytes taken plus bytes left stay constant; the mapping table overruns exactly if 256 allocations are recorded already |
| `EarlyMem.TableOverrun` | kernel/src/mm/mem_init.c:99-130 | on a machine with one megabyte, the 256th allocation after the page array is recorded past the end of the table |
| `EarlyMem.UsedPlusLeft` | kernel/src/mm/mem_init.c:99-158 | bytes taken plus bytes left equal the boot map's usable bytes |
| `EarlyMem.HighEndIs` | kernel/src/mm/mem_init.c:64-76 | the highest end is the end of some entry, and no entry ends above it |
| `EarlyMem.LeftIsPages` | kernel/src/mm/mem_init.c:64-87 | for page-aligned disjoint entries, the usable bytes are those of the pages in usable entries |
| `EarlyMem.CutFits` | kernel/src/mm/mem_init.c:133-158 | the alignment cut never exceeds an entry |
| `EarlyMem.EarlyAllocator.Exit` | kernel/src/mm/mem_init.c:133-158 | every usable entry is page aligned afterwards, the sanity panic never fires, the map is what the frame allocator expects, and the bytes left are those of its usable pages |
| `EarlyMem.TrimmedRegions` | kernel/src/mm/mem_init.c:133-158 | the trimmed map consists of disjoint page-aligned regions |
| `EarlyMem.EarlyAllocator.Statistics` | kernel/src/mm/mem_init.c:171-177 | usable pages minus the pages allocated at boot; once Exit has counted those out of the usable ones, the reported number is right exactly if less than a page was allocated |
| `RbTree.RedBlackTree.constructor` | kernel/src/std/rbtree.c:6-11 | an empty tree with its sentinel |
| `RbTree.RedBlackTree.Rotate` | kernel/src/std/rbtree.c:24-51 | the pointer writes turn the records of a subtree into those of the rotated subtree, and touch no other |
| `RbTree.RedBlackTree.InsertFixup` | kernel/src/std/rbtree.c:53-85 | a red node under a red parent at entry; at exit all colour rules, the items and the node set as before |
| `RbTree.RedBlackTree.InsertStep` | kernel/src/std/rbtree.c:62-82 | one round keeps items and balance and moves up |
| `RbTree.RedBlackTree.Insert` | kernel/src/std/rbtree.c:88-123 | either the datum stored under that key and nothing changes, or exactly the new datum is added in key order and the tree stays red-black |
| `RbTree.RedBlackTree.RemoveFixup` | kernel/src/std/rbtree.c:125-165 | one black node missing at entry; at exit all colour rules, the items and the node set as before; the loop ends |
| `RbTree.RedBlackTree.RemoveStep` | kernel/src/std/rbtree.c:134-162 | one round of the removal fix-up, with a sibling that always exists |
| `RbTree.SiblingExists` | kernel/src/std/rbtree.c:125-165 | a hole that lacks a black node has a sibling, so the fix-up never dereferences a missing one |
| `RbTree.RedBlackTree.FindNode` | kernel/src/std/rbtree.c:167-176 | finds the node of a key exactly if the key is stored |
| `RbTree.RedBlackTree.Find` | kernel/src/std/rbtree.c:218-222 | finds the datum of a key exactly if the key is stored |
| `RbTree.RedBlackTree.SetDataAt` | kernel/src/std/rbtree.c:224-231 | exchanges the datum of a stored key; panics exactly for a datum of another key, and writes through a null pointer exactly if the key is not stored |
| `RbTree.RedBlackTree.Remove` | kernel/src/std/rbtree.c:179-215 | exactly the datum of that key is gone, order, links, black root, no red-red edge and equal black heights stay; one node is released |
| `RbModel.LogarithmicHeight` | kernel/src/std/rbtree.c:53-215 | every red-black tree of n nodes has 2^height at most (n + 1)^2 |
| `PathCache.SameNameIff` | kernel/src/std/string.c:56-67 | the length test and strncmp accept exactly the names of the same length that agree up to a NUL |
| `PathCache.NamesToldApart` | kernel/src/std/string.c:56-67 | names without a NUL are told apart by their identity, for every hash function |
| `PathCache.Directory.constructor` | kernel/src/fs/pathncache.c:8-24 | a directory without entries stands for the empty map |
| `PathCache.Directory.Lookup` | kernel/src/fs/pathncache.c:98-115 | for every hash function and every name: the entry that the map has for the identity of the name, NULL if none |
| `PathCache.Directory.Add` | kernel/src/fs/pathncache.c:26-53 | an existing name gives its entry and changes nothing; a new name is added to the map and nothing else changes, also when its hash is taken |
| `PathCache.Directory.Evict` | kernel/src/fs/pathncache.c:55-96 | exactly that name leaves the map, for the head, the middle and the last entry of a chain; neither panic can fire |
| `PathCache.AddedRight` | kernel/src/fs/pathncache.c:34-47 | tree, chains and map agree after an insertion |
| `PathCache.EvictedRight` | kernel/src/fs/pathncache.c:58-82 | tree, chains and map agree after an eviction |
| `PathCache.Directory.WalkTo` | kernel/src/fs/pathncache.c:68-77 | the search for a chained entry finds it; the not-found panic is unreachable |
| `NvmeIndex.LruList.constructor` | kernel/src/driver/nvme.c:43-76 | the list is a permutation of all slots with lruref as its inverse |
| `NvmeIndex.LruList.InformUsage` | kernel/src/driver/nvme.c:103-128 | moves exactly that slot to the front, order by last use kept |
| `NvmeIndex.LruList.Oldest` | kernel/src/driver/nvme.c:91-99 | the tail is used no later than any other slot |
| `NvmeIndex.HashMap.Find` | kernel/src/driver/nvme.c:178-187 | the slot of a block id, INV exactly if it is not mapped, for every hash |
| `NvmeIndex.HashMap.Update` | kernel/src/driver/nvme.c:142-175 | replaces one mapping, including a vacated bucket head whose chain survives |
| `NvmeCache.Namespace.constructor` | kernel/src/driver/nvme.c:43-76 | an empty cache shows the disk |
| `NvmeCache.Namespace.Evict` | kernel/src/driver/nvme.c:91-99 | the least recently used slot, ready to be given away; nothing is written and no mark changes; it fails only if the device refuses a transfer inside it or the slot holds a block beyond the device, and then every attempt fails and changes nothing |
| `NvmeCache.Namespace.ReadBlock` | kernel/src/driver/nvme.c:192-225 | the slot that holds the block, with the bytes the block showed before; a hit makes no transfer, a miss at most two; in any state dirty blocks are kept, all others stay on disk as they were, no mark changes, and the ages are those after an access; a miss fails only if the device refuses a transfer inside it, the block is not on the device, or the slot to be evicted holds such a block |
| `NvmeCache.Namespace.PrepWrite` | kernel/src/driver/nvme.c:230-261 | a slot marked dirty for the block, on the device or not; a hit makes no transfer, a miss at most one, and it fails only as Evict does; all other blocks are kept, and the ages are those after an access |
| `NvmeView.WriteBackKeepsView` | kernel/src/driver/nvme.c:203-211 | writing a block back changes the disk and nothing that callers see |
| `NvmeView.KeptTwice` | kernel/src/driver/nvme.c:192-261 | what is promised of a block that nobody writes to composes over any number of accesses |
| `NvmeView.SettledSame` | kernel/src/driver/nvme.c:192-225 | with every clean block equal to the disk, accesses that write nothing change nothing that callers see |
| `NvmeView.StaleStays` | kernel/src/driver/nvme.c:192-261 | bytes that are not on disk and not marked dirty stay that way, and the disk keeps the old ones, through all accesses to other blocks |
| `NvmeView.StaleIsLost` | kernel/src/driver/nvme.c:192-261 | such bytes cannot be shown with every clean block equal to the disk, and once the block is evicted it shows exactly the bytes it had before |
| `NvmeView.CrowdFits` | kernel/src/driver/nvme.c:43-76 | no more consecutive blocks are cached than there are slots |
| `NvmeLru.HitAges` | kernel/src/driver/nvme.c:103-128 | the order of the slots after a hit is that of the ages function |
| `NvmeLru.MissAges` | kernel/src/driver/nvme.c:91-128 | the order of the slots after a miss is that of the ages function, the block of the highest age gone |
| `NvmeLru.SurvivesExactly` | kernel/src/driver/nvme.c:91-128 | a block survives a run of accesses to consecutive other blocks exactly if its age, plus the number of accessed blocks not used since it was, is below the number of slots |
| `NvmeLru.YoungestLeaves` | kernel/src/driver/nvme.c:91-128 | as many accesses to other blocks as there are slots throw the youngest block out |
| `NvmeCache.Namespace.Read` | kernel/src/driver/nvme.c:736-772 | in any state: for off + count at least 512 a prefix of what the blocks show, and dirty blocks are kept; with all cached blocks on the device it is short only if the device refuses a transfer inside it, or at a block that is not on the device; with every clean block equal to the disk exactly the visible bytes, and nothing visible changes; below 512 some transfer always fails |
| `NvmeBytes.BlockHiExact` | kernel/src/driver/nvme.c:744 | block_hi is the last whole block exactly if off + count is at least 512; otherwise it wraps to the invalid id |
| `NvmeCache.Namespace.CopyInto` | kernel/src/driver/nvme.c:792 | a copy into a cached block keeps clean blocks equal to the disk exactly if the block is dirty or nothing changes |
| `NvmeCache.Namespace.WritePartial` | kernel/src/driver/nvme.c:788-808 | the view changes at that block, by exactly the part; every clean block still equals the disk exactly if the block was dirty before or nothing changes, otherwise nothing brings the new bytes to the disk |
| `NvmeCache.Namespace.WriteWhole` | kernel/src/driver/nvme.c:796-801 | the block is dirty and shows the written bytes, all others are kept |
| `NvmeCache.Namespace.Write` | kernel/src/driver/nvme.c:776-813 | in any state blocks outside the range are kept; from a state with every clean block equal to the disk, exactly the written bytes change and clean blocks still equal the disk if and only if the front part is dirty already or unchanged, and the tail part is unchanged or dirty and still cached when its turn comes; a front part that is not kept is on no disk and in no dirty block; the ages are those after an access to every block of the range; with all cached blocks and the range on the device, short only if the device refuses a transfer inside it |
| `NvmeBytes.AlignedKept` | kernel/src/driver/nvme.c:796-801 | writes of whole blocks always meet that condition |
| `NvmeBytes.TailDecided` | kernel/src/driver/nvme.c:803-808 | what happens to the tail part can be told from the state before the write |
| `NvmeBytes.PartialWriteLost` | kernel/src/driver/nvme.c:788-808 | one byte at offset 511 written into a clean cached block shows at first, and after the slot has been given to another block the old byte is back; the write condition rules this write out whatever the ages are |
| `NvmeCache.LoseByte` | kernel/src/driver/nvme.c:736-813 | the same as a run: on a fresh device a byte is written at offset 511 and 1000 other blocks are read; if the device refuses nothing, the write was acknowledged and the byte is the old one again |
| `NvmeBytes.PastEndStays` | kernel/src/driver/nvme.c:230-261 | a block written beyond the device keeps its slot and its bytes, whatever is accessed elsewhere |
| `NvmeTransparency.CacheIsTransparent` | kernel/src/driver/nvme.c:736-813 | over every run of reads and writes, as long as every write so far met the condition of Write, the device agrees with a plain disk, and every read returns the bytes the plain disk has at that moment |
| `NvmeTransparency.TransparentExactly` | kernel/src/driver/nvme.c:776-813 | after a write that follows such writes the device agrees with the plain disk, every clean block equal to the disk, exactly if the condition holds of this write too |
| `NvmeTransparency.WriteAgreesExactly` | kernel/src/driver/nvme.c:776-813 | after a write inside the device, agreeing with the plain disk is the same as showing exactly the written bytes |
| `NvmeTransparency.CachedDisk.Read` | kernel/src/driver/nvme.c:736-772 | a read returns a prefix of the plain disk's bytes, short only if the device refuses a transfer inside it or at a block that is not on the device; one that ends below byte 512 always runs into a failing transfer |
| `NvmeTransparency.CachedDisk.Write` | kernel/src/driver/nvme.c:776-813 | any write inside the device changes the plain disk in exactly the bytes written, all of them unless the device refuses a transfer or its last block is cut off, and the cached device agrees with it afterwards if and only if the condition of Write holds |
| `NvmeTransparency.CachedDisk.RunAll` | kernel/src/driver/nvme.c:736-813 | any sequence of reads and of writes of whole blocks leaves the plain disk as a disk without a cache would be, the cached device agrees with it, and every read returned the bytes of its moment; if the device refuses nothing, every call has done all that it was asked for |
| `NvmeRing.ProtocolIsSafe` | kernel/src/driver/nvme.c:339-394 | over every interleaving of host and controller steps: free entries plus outstanding commands are n - 1, no unfetched command and no unread completion is overwritten, completions are read once and in order |
| `NvmeRing.RingsAreFifo` | kernel/src/driver/nvme.c:303-394 | refinement: over every interleaving, and any number of laps, the rings answer every submission, fetch, completion and poll as a plain first-in first-out queue of n - 1 places does |
| `NvmeRing.StepIsFifo` | kernel/src/driver/nvme.c:339-394 | one step of either party on the rings is one step of that queue, with the same answer |
| `NvmeRing.PhaseTestIsExact` | kernel/src/driver/nvme.c:365-369 | the phase test accepts exactly if a completion waits, and then the oldest, across wraparounds |
| `NvmeRing.DoorbellIsExact` | kernel/src/driver/nvme.c:345-352 | the tail doorbell differs from the controller's head exactly if a command waits |
| `NvmeRing.RoomToPost` | kernel/src/driver/nvme.c:386-390 | while a command is outstanding, the head doorbell leaves the controller room for its completion |
| `NvmeRing.SubmitInv` | kernel/src/driver/nvme.c:339-357 | a submission keeps the ring invariant |
| `NvmeRing.PollInv` | kernel/src/driver/nvme.c:360-394 | a poll keeps the ring invariant |
| `NvmeRing.QueuePair.constructor` | kernel/src/driver/nvme.c:303-336 | empty rings, phase 1, n - 1 free entries |
| `NvmeRing.QueuePair.SubmitCommand` | kernel/src/driver/nvme.c:339-357 | refused exactly if n - 1 commands are outstanding, and then nothing changes; otherwise the command is in the slot at the tail, the tail has advanced around the ring, the doorbell shows it, one entry less is free; the next command id, counted modulo 2^16, goes into the caller's copy and not into the ring |
| `NvmeRing.QueuePair.PollOnce` | kernel/src/driver/nvme.c:360-394 | the oldest unread completion, which then counts as read: the head and its doorbell advance, the phase turns exactly at the wrap, one entry more is free; nothing while none waits |
| `PageTable.OthersUnaffected` | kernel/src/arch/x86-64/mmu.c:77-168 | a write to one entry changes no walk of an address that does not use it |
| `PageTable.EmptyTableInvisible` | kernel/src/arch/x86-64/mmu.c:77-90 | linking an empty table into an empty entry changes no walk |
| `PageTable.LeafDecidesWriting` | kernel/src/arch/x86-64/mmu.c:77-90 | every table pointer lets writes through, so that the leaf alone decides whether an address can be written to |
| `PageTable.NoneMissing` | kernel/src/arch/x86-64/mmu.c:77-90 | if no table is missing on the way of an address, the walk gets to the level asked for |
| `Mmu.LeafRoundTrip` | kernel/src/arch/x86-64/mmu.c:343-365 | the page address taken out of a leaf is the one it was made of, whatever the flag bits |
| `Mmu.LeafFlags` | kernel/src/arch/x86-64/mmu.c:110-168 | the leaf has the flag bits it was given: the low twelve but for the page size bit, the PAT bit of a large page, and no-execute |
| `MmuMap.PageMap.constructor` | kernel/src/arch/x86-64/mmu.c:376-383 | an empty top table, under which nothing is mapped |
| `MmuMap.PageMap.ForceWalk` | kernel/src/arch/x86-64/mmu.c:77-90 | the table below an entry, new and empty if need be; all translations stay; one frame of the pool becomes a table exactly if one was missing, and it fails only with an empty pool |
| `MmuMap.PageMap.Map4K` | kernel/src/arch/x86-64/mmu.c:92-120 | panics exactly for misaligned addresses; runs out of memory exactly if fewer frames are left than tables are missing on the way (at most three); otherwise takes exactly that many, and exactly the addresses of that page end in the new leaf |
| `MmuMap.PageMap.Map2M` | kernel/src/arch/x86-64/mmu.c:122-146 | the same for 2 MiB pages, where at most two tables are missing |
| `MmuMap.PageMap.Map1G` | kernel/src/arch/x86-64/mmu.c:148-168 | the same for 1 GiB pages, where at most one table is missing |
| `MmuMap.PageMap.MapRun` | kernel/src/arch/x86-64/mmu.c:208-232 | one loop of the range mapping maps its piece and nothing else; it panics exactly if the piece is not empty and its page size does not go with the offset; it stops early only there or with no frame left and a table missing |
| `MmuRange.Tiling` | kernel/src/arch/x86-64/mmu.c:208-232 | the five loops cut the range into adjacent pieces of one page size each, all aligned |
| `MmuRange.LargestPage` | kernel/src/arch/x86-64/mmu.c:170-172 | at every address the largest page size is used that fits into the range there |
| `MmuMap.PageMap.MapRangeLinear` | kernel/src/arch/x86-64/mmu.c:173-233 | vbase + i translates to pbase + i for every i below len through leaves of those sizes with the flags asked for, every other address translates as before; misaligned arguments panic; otherwise it stops early, with the range mapped up to that page, exactly where the page size does not go with the offset or the frames are used up and a table is missing; the frames taken are the first of the pool and exactly they become tables |
| `MmuMap.RangeStartsAtBase` | kernel/src/arch/x86-64/mmu.c:179 | the mapped range starts at vbase exactly if vbase is not below pbase (or twice their distance is a multiple of the address space) |
| `MmuMap.PageMap.WalkTable` | kernel/src/arch/x86-64/mmu.c:236-290 | finds the leaf that the processor's walk finds, with its level; NULL exactly if there is none |
| `MmuMap.PageMap.VirtToPhys` | kernel/src/arch/x86-64/mmu.c:343-365 | what the processor translates the address to, 0 if nothing |
| `SlabModel.Geometry` | kernel/src/mm/slab.c:56-59 | the pages-per-slab lookup of each cache gives a power of two that the block order reproduces (the "check failed" panic cannot fire) and that the objects fill exactly |
| `Slab.SizeToBlock` | kernel/src/mm/slab.c:70-84 | the smallest block class that holds the size; the matching cache up to 8192 bytes |
| `Slab.PageOrderFits` | kernel/include/frame_alloc.h:139-146 | the page block of a large request is too small exactly for sizes between 4096 * 2^k and 4097 * 2^k; otherwise it is the smallest that fits |
| `Slab.PageBlockTooSmall` | kernel/include/frame_alloc.h:139-146 | counterexample: 8193 bytes get an 8192-byte block |
| `SlabSteps.SlotOwner` | kernel/src/mm/slab.c:334-350 | from any object address the page marks lead back to its slab |
| `SlabSteps.SlotsDisjoint` | kernel/src/mm/slab.c:204-239 | objects, live or free, of the same or of different slabs never overlap |
| `SlabSteps.ObjectsDisjoint` | kernel/src/mm/slab.c:261-410 | live objects never overlap |
| `SlabSteps.CleanPages` | kernel/src/mm/slab.c:113-133 | pages of a fresh block carry no marks, so marking cannot panic |
| `Slab.SlotAligned` | kernel/src/mm/slab.c:204-239 | every object is aligned to its own size, from the natural alignment of page blocks |
| `Slab.TakenRight` | kernel/src/mm/slab.c:278-320 | taking an object keeps all lists, free lists, marks and counters right |
| `Slab.GivenRight` | kernel/src/mm/slab.c:470-492 | giving one back keeps them right |
| `Slab.AddedRight` | kernel/src/mm/slab.c:204-239 | adding a slab keeps them right |
| `Slab.EvictedRight` | kernel/src/mm/slab.c:243-259 | giving up a slab together with its last object keeps them right |
| `Slab.GrantedIs` | kernel/src/mm/frame_alloc.c:467-516 | a block that the page allocator grants meets no block that is out |
| `Slab.SlabHeap.constructor` | kernel/src/mm/slab.c:182-196 | ten caches without slabs |
| `Slab.SlabHeap.PageAlloc` | kernel/src/mm/frame_alloc.c:94-106 | a block disjoint from every block that is out; refused exactly if no list from that order upwards has an entry, and then nothing changes |
| `Slab.SlabHeap.PageFree` | kernel/src/mm/frame_alloc.c:129-137 | takes the block back |
| `Slab.SlabHeap.MarkComposite` | kernel/src/mm/slab.c:113-133 | panics exactly if the head or a tail page is marked already; otherwise marks exactly the block |
| `Slab.SlabHeap.UnmarkComposite` | kernel/src/mm/slab.c:135-150 | panics exactly if a tail page is not marked; otherwise unmarks exactly the block |
| `Slab.SlabHeap.InitFreelist` | kernel/src/mm/slab.c:220-231 | chains up all objects of the slab and writes nowhere else |
| `Slab.SlabHeap.NewSlab` | kernel/src/mm/slab.c:204-239 | one wholly free slab more, on a fresh block; refused exactly if the page allocator has no block of its order, and then nothing changes |
| `Slab.SlabHeap.AllocPartial` | kernel/src/mm/slab.c:271-302 | an object that was not live, and no other change of liveness; both free-list panics are unreachable |
| `Slab.SlabHeap.AllocFull` | kernel/src/mm/slab.c:304-325 | the same from a wholly free slab |
| `Slab.SlabHeap.CacheAlloc` | kernel/src/mm/slab.c:261-332 | an object of the first partial slab if there is one, else of the first wholly free one, else of a new slab on one fresh block; none exactly if there is no such slab and the page allocator has no block |
| `Slab.SlabHeap.Kmalloc` | kernel/src/mm/slab.c:357-410 | NULL exactly for size 0; no memory exactly if the class has no partial and no wholly free slab and the page allocator no block of its slab order, or for a large request no block of its order; otherwise a cached request gets one new live object of the smallest sufficient size, aligned to it, that overlaps no other, from the slab that the preference order names; a large one a fresh page block |
| `Slab.SlabHeap.RefusedExactly` | kernel/src/mm/slab.c:357-410 | over pair-free page lists, which kmalloc and kfree keep pair-free, memory is refused exactly if the class has no such slab and no aligned run of pages of the order is free |
| `Slab.SlabHeap.FindSlab` | kernel/src/mm/slab.c:334-350 | the slab of an object; the panic is unreachable |
| `Slab.SlabHeap.AttemptFreeFull` | kernel/src/mm/slab.c:243-259 | gives up the first wholly free slab exactly if there are more than _size2block + 1 |
| `Slab.SlabHeap.Kfree` | kernel/src/mm/slab.c:413-496 | exactly that object or block is no longer live; each slab is again on the list that its used count names; a slab goes back to the page allocator exactly if this was its last live object and _size2block + 1 wholly free ones are kept already |
| `RunQueues.Queues.PopFront` | kernel/src/proc/scheduler.c:45-68 | takes the first task of the sequence that the links spell out, NULL exactly if it is empty |
| `RunQueues.Queues.InsertFront` | kernel/src/proc/scheduler.c:70-89 | puts an unqueued task first; num_tasks follows |
| `RunQueues.Queues.InsertBack` | kernel/src/proc/scheduler.c:91-112 | puts an unqueued task last; num_tasks follows |
| `RunQueues.Queues.Remove` | kernel/src/proc/scheduler.c:114-136 | takes exactly that task out, wherever it stands |
| `Scheduler.Scheduler.SpawnTask` | kernel/src/proc/scheduler.c:162-225 | a new uninitialised task, first in the sleep queue; in a thread group also first among the children of its parent, all other children lists as before |
| `Scheduler.Scheduler.NewKernelThread` | kernel/src/proc/scheduler.c:271-306 | a new ready task at the front of its priority, first among its siblings |
| `Scheduler.Scheduler.NewIdleThread` | kernel/src/proc/scheduler.c:308-335 | the idle task is ready and in no queue, the queues are as before, and it is the first child of the kernel task |
| `Scheduler.Scheduler.PutToSleep` | kernel/src/proc/scheduler.c:339-352 | from running or from its run queue to the end of the sleep queue; panics exactly for a sleeping task |
| `Scheduler.Scheduler.AttemptWake` | kernel/src/proc/scheduler.c:355-363 | a sleeping task leaves the sleep queue and is the first of its priority, nobody else moves; any other task stays |
| `Scheduler.Scheduler.FindTaskToRun` | kernel/src/proc/scheduler.c:386-403 | the head of the highest non-empty priority; the non-ready panic is unreachable |
| `Scheduler.Scheduler.SwitchToNextTask` | kernel/src/proc/scheduler.c:406-419 | that task, or the idle task if all run queues are empty, becomes the one running task: no ready task has a higher priority, and the idle task runs only if no other is ready; the panic of switch2task is unreachable |
| `Scheduler.Scheduler.Requeue` | kernel/src/proc/scheduler.c:445-460 | a preempted task is ready at the end of its priority, the idle task in no queue |
| `Scheduler.TurnComes` | kernel/src/proc/scheduler.c:386-462 | round robin: at the highest priority that anyone waits at, the j-th in line is one further after every preemption, and runs if it was the first |
| `Scheduler.Scheduler.Bury` | kernel/src/proc/scheduler.c:514-515 | the current task is dead and last in the reap queue |
| `Scheduler.Scheduler.CleanupTask` | kernel/src/proc/scheduler.c:229-269 | panics exactly for a task that is not dead or still linked; it leaves its parent's children and its own children are killed; afterwards every task is in the place its state names exactly if those were dead already or running |
| `Scheduler.KilledInPlace` | kernel/src/proc/scheduler.c:242-246 | killing tasks where they stand keeps every task in place exactly if none of them waits in a queue |
| `Scheduler.YieldNeedsSleep` | kernel/src/proc/scheduler.c:494-500 | yielding keeps every task in place exactly if the yielding one has been put to sleep before |
| `Subscribers.Subscriptions.PoolAlloc` | kernel/src/misc/kevent.c:9-23 | a free node; 128 new ones are made exactly if the pool was empty |
| `Subscribers.Subscriptions.PoolFree` | kernel/src/misc/kevent.c:25-30 | the node is free again, none is lost |
| `Subscribers.Subscriptions.Link` | kernel/src/misc/kevent.c:32-42 | the thread becomes the first subscriber of the event; all nodes stay in the pool or on one list |
| `Subscribers.Subscriptions.Unlink` | kernel/src/misc/kevent.c:45-71 | panics exactly if the thread is not subscribed; otherwise its latest subscription goes and the node returns to the pool |
| `Kevents.LaunchKeepsWakeups` | kernel/src/misc/kevent.c:152-173 | a launch leaves no sleeper with a pending event |
| `Kevents.Kernel.FindUnprocessed` | kernel/src/misc/kevent.c:73-89 | consumes the first pending event of the array once, -1 exactly if none is pending |
| `Kevents.Kernel.Subscribe` | kernel/src/misc/kevent.c:92-101 | one subscription per array entry, duplicates included |
| `Kevents.Kernel.Unsubscribe` | kernel/src/misc/kevent.c:104-113 | takes exactly those back; the not-subscribed panic is unreachable |
| `Kevents.Kernel.PollBegin` | kernel/src/misc/kevent.c:119-139 | consumes an event, or sleeps at the end of the sleep queue, subscribed to all of them with none pending, and the foremost ready task is taken from the front of its queue and runs; no sleeper ever has a pending event, and unprocessed equals launches minus consumptions |
| `Kevents.Kernel.PollResume` | kernel/src/misc/kevent.c:141-149 | after waking: an event is consumed exactly if one is pending, all subscriptions are gone; the reaper always finds its event, so its panic is unreachable |
| `Kevents.Kernel.Launch` | kernel/src/misc/kevent.c:152-173 | panics exactly if nobody is subscribed; otherwise one more pending and exactly the sleeping subscribers become ready, ahead of those in line, who keep their places; all invariants stay |
| `Kevents.Kernel.Exit` | kernel/src/proc/scheduler.c:505-521 | the current task goes to the reap queue and is announced, exactly the sleeping subscribers of the reap event become ready, and the foremost ready task runs; the tasks on the reap queue always match the pending reap events |
| `Kevents.Kernel.Preempt` | kernel/src/proc/scheduler.c:421-462 | a running task becomes ready at the end of its run queue (the idle task in none) and the foremost ready task is taken from the front of its queue and runs; a killed one is buried and announced as in Exit; panics exactly for a killed task without a listening reaper |
| `Kevents.RunsOnAlone` | kernel/src/proc/scheduler.c:421-462 | a preempted task runs on only if no other task of its priority or a higher one is ready, the idle task only if no other is |
| `Kevents.Kernel.Reap` | kernel/src/proc/scheduler.c:532-551 | after a consumed reap event the reap queue is not empty and the cleanup does not panic; all invariants hold afterwards exactly if the dead task's children were dead or running |
| `Kevents.Kernel.Spawn` | kernel/src/proc/scheduler.c:162-225 | a new task under any parent keeps all invariants of events and queues |
| `Kevents.Kernel.NewEvent` | kernel/src/misc/time.c:158-161 | an event without subscribers, new or used before, starts with nothing pending and all invariants stay |
| `Scheduler.FamilyOrphaned` | kernel/src/proc/scheduler.c:229-269 | a dead task has a parent, and after its cleanup every task still is a child of its parent only |
| `TimerHeap.RootIsLeast` | kernel/src/misc/time.c:35-54 | the root of a heap expires no later than any entry |
| `TimerHeap.Heap.MinHeapify` | kernel/src/misc/time.c:35-54 | restores heap order below a replaced root, same timers |
| `TimerHeap.Heap.SiftUp` | kernel/src/misc/time.c:72-75 | restores heap order above a new last entry, same timers |
| `TimerHeap.Heap.Insert` | kernel/src/misc/time.c:56-77 | exactly one timer more, heap order, size within capacity; capacity 3000 at first, then doubled |
| `TimerHeap.Heap.Peek` | kernel/src/misc/time.c:80-93 | a timer that expires first, nothing exactly for an empty heap |
| `TimerHeap.Heap.RemoveRoot` | kernel/src/misc/time.c:112-121 | the root leaves; the array is halved exactly if more than 64 timers remain and they fill less than a quarter of it |
| `TimerHeap.Heap.Pop` | kernel/src/misc/time.c:96-126 | exactly the first timer leaves; the panic is the empty heap |
| `TimerHeap.Heap.Tick` | kernel/src/misc/time.c:129-145 | launches exactly the timers due by now, in order of expiration, and leaves only later ones; a timer fires at its tick, or one tick later if it was registered with 0 ms |
| `TimerHeap.Heap.Register` | kernel/src/misc/time.c:152-166 | adds exactly that timer; no timer lies in the past afterwards exactly if the 64-bit sum does not wrap below the current tick |
| `SystemTimers.Clock.Register` | kernel/src/misc/time.c:152-166 | an event without subscribers and without pending launches, new or used before, and its timer on the heap; no timer lies in the past afterwards exactly if the sum does not wrap |
| `SystemTimers.Clock.Tick` | kernel/src/misc/time.c:129-145 | panics exactly if a due timer's event has no subscribers, which is exactly if a timer is due that its thread has set and not polled yet; otherwise each due timer's event is launched once, no other is, and no due timer is left |
| `SystemTimers.Clock.UnheardIsUnpolled` | kernel/src/misc/time.c:129-145 | in every reachable state a timer on the heap has no subscribers exactly if its thread has not polled it yet |
| `SystemTimers.AwakenedExactly` | kernel/src/misc/time.c:136-144 | exactly the sleepers that wait for a timer launched by the tick become ready |
| `SystemTimers.LaunchedExactly` | kernel/src/misc/time.c:136-144 | the pending count of every event grows by the number of its timers that the tick launched |
| `SystemTimers.Clock.SleepPoll` | kernel/src/proc/scheduler.c:470-472 | whatever has happened since the thread set its timer, short of a panic, nothing is pending when it polls, and it sleeps on the timer's event |
| `SystemTimers.Clock.SleepResume` | kernel/src/proc/scheduler.c:472-477 | a thread that waits for its timer and runs again finds the timer's event pending and consumes it, so the panic of scheduler_sleep_for is unreachable; the node is off the heap and has no subscribers, so that it can be set again |
| `SystemTimers.RousedLaunched` | kernel/src/misc/kevent.c:152-173 | a launch wakes a thread that waits for one timer only together with making its event pending |
| `SystemTimers.Clock.Preempt` | kernel/src/proc/scheduler.c:421-462 | preemption keeps timers, events and threads in agreement, and switches as Kernel.Preempt does |
| `SystemTimers.Clock.NobodyOversleeps` | kernel/src/proc/scheduler.c:464-477 | in every reachable state a thread that sleeps on a timer's event has its timer on the heap; after a tick its expiration time lies ahead, and while no timer lies in the past it has not passed |
| `Boot.InitScheduling` | kernel/src/proc/scheduler.c:143-153 | the kernel task, the reaper, the idle thread and the thread of kernel_main, each in its place |
| `Boot.FirstSwitch` | kernel/src/kmain.c:256-261 | of the first tasks the reaper runs first |
| `Boot.BootKernel` | kernel/src/kmain.c:246-262 | the reaper runs first and waits for its event, and then kernel_main runs |
| `Boot.OrphanStaysQueued` | kernel/src/proc/scheduler.c:229-269 | from there: a thread that ends while it has a child that has not started leaves, after the reaper's round, a dead task on the sleep queue |
| `Boot.TimerBeforePoll` | kernel/src/misc/time.c:129-166 | from there: a timer of 0 ms that is not polled before the next tick makes the tick panic |

## Left out

- Buddy.FrameAllocator.Alloc: counters are unbounded integers; the wrap of the kernel's size_t counters is not modelled.
- Buddy.FrameAllocator.FreeBlock: the caller holds the block (none of its pages is free); releasing a block twice is not modelled.
- Slab.SlabHeap.NewSlab: the kernel does not check for a refused page block; the model returns without change there, and so do CacheAlloc and Kmalloc.
- Slab.SlabHeap.Kmalloc: for more than 8192 bytes the block holds the request only under the condition of PageOrderFits.
- Slab.SlabHeap.Move: the three slab lists of a cache are sequences; their link writes are those of Buddy.FrameAllocator.ListLink and ListUnlink.
- Slab.SlabHeap.InstallSlab: struct page is a union; that `next` and `prev`, the slab fields, `order` and `comp_head` share memory is not modelled, each is a field of its own.
- Scheduler.Scheduler.SpawnTask: sibling lists are sequences; stacks, contexts, thread-group ids and page-map contexts are not modelled.
- Scheduler.Scheduler.CleanupTask: the release of the stacks is not modelled.
- Kevents.Kernel.Exit: that the reap event has a subscriber whenever a task ends is not promised by the code and not claimed.
- Kevents.Kernel.PollBegin: a thread polls the reap event exactly if it is the reaper, and then nothing else; the event is a static variable of the scheduler that only kernel_reaper uses.
- Scheduler.Scheduler.PutToSleep: of the current task, or of a ready or sleeping one; unlinking a dead or uninitialised task from a run queue it is not in is not modelled.
- NvmeIndex.HashMap.Update: the collision chains are sequences; their links and the kfree of a chain entry are not modelled.
- NvmeCache.Namespace.Write: ranges that do not reach the end of block 0 are excluded, because the wrapped loop reads past the caller's buffer; from a state with a stale clean block only the blocks outside the range are described.
- NvmeTransparency.CachedDisk.Write: writes inside the device only; beyond it there is no plain disk to compare with, and NvmeCache.Namespace.Write says what happens.
- NvmeCache.Namespace.ReadLbas: which transfers the device refuses is a parameter; a failed one leaves buffer and disk unchanged. LBA sizes divide 512.
- NvmeRing.QueuePair.PollOnce: one look at the ring; the polling limit, PRP lists and the admin queue are not modelled.
- MmuMap.PageMap.Map4K: no large leaf lies on the way (the kernel would walk it as a table); OutOfMemory stands for page_calloc without a frame, which the kernel does not check.
- MmuMap.PageMap.ForceWalk: the entry is empty or a table; an existing large leaf there, which the kernel would walk as a table, is not modelled.
- MmuMap.PageMap.Map2M: no 1 GiB leaf lies on the way, as for Map4K.
- MmuMap.PageMap.MapRangeLinear: no larger leaf than the tiling asks for lies in the range beforehand; the two flag words are parameters; how a cache type selects PAT bits, TLB flushes and unmapping (a stub in the kernel) are not modelled.
- MmuMap.PageMap.VirtToPhys: the kernel ignores the page map it is given and uses its own; the model is the method of that one.
- PathCache.Directory.Add: one directory is modelled, the addresses that kmalloc returns are parameters.
- TimerHeap.Heap.Resize: krealloc keeps the contents that are in use, which the kernel's krealloc does not do for page-backed blocks.
- TimerHeap.Heap.Tick: the heap's part of a tick, SystemTimers.Clock.Tick has the launches; heap_capacity is unbounded.
- SystemTimers.Clock.Register: the timer of the node is not on the heap and nobody is subscribed to its event; linking a node that is still in use is not modelled.
- SystemTimers.Clock.SleepPoll: the event of a timer is polled by the thread that set it only, as in scheduler_sleep_for; the steps considered beside it are ticks, preemption and the sleeps of other threads.
- EarlyMem.EarlyAllocator.constructor: some usable entry has room for the copied map, as the kernel takes for granted; addresses are physical.
- Parameters instead of effects: the boot loader's memory map, the higher-half offset, device contents, the transfers that a device refuses, hash functions, and the addresses of kmalloc'ed nodes, tasks and tables.
- Several processors, spinlocks and interrupt nesting: the code does not give the atomicity that a proof would need.
- The bitmap frame allocator (not configured), the sanitizer build of the slab, krealloc and kcalloc.
- NVMe initialisation, nvme_flush_blocks and register access; ACPI, PCI, APIC, RTC, PS/2 and serial drivers; printing.
- vfs and ramfs above the pathname cache, and the recursive eviction that its header mentions and its code does not do.
