# nyonOS kernel: verified models

Dafny models of the parts of the nyonOS kernel that carry invariants over unbounded runs, with proofs about them.

- **Physical memory** (`Blocks`, `Buddy`, `Pmm`): buddy split and merge over the page-state array and the free lists, per-CPU page caches, allocation and freeing.
- **Page tables** (`Paging`, `PageTree`, `PageEdit`, `PageRel`, `PageWalk`, `PageTable`, `PageVisit`): the 4- or 5-level tree of one user root as it lies in memory, proved to refine a flat map from pages to entries. The number of levels is a parameter. The recursive walks meet every mapped page once and give every table page back once.
- **Copy on write** (`Cow`, `CowSpace`): fork by sharing, write faults, destruction and the share counts, proved to refine a machine whose fork copies every page.
- **FAT16** (`FatTable`, `FatWalk`, `FatBytes`, `FatWrite`, `FatCache`, `FatDisk`, `FatVolume`, `Lfn`): the table as a forest of chains, files as byte sequences, the sector cache and the cache of chain positions, reading, writing and resizing on the device's sectors through both, long names.
- **Kernel allocators** (`SlabSpace`, `SlabPlan`, `Slab`, `SlabPages`, `SlabRun`, `HeapList`, `Heap`, `VaRange`): slab caches on blocks of the physical memory manager, the boundary-tagged heap with size bins, virtual ranges.
- **Concurrency and processes** (`Wait`, `Locks`, `Pipe`, `Pgroups`): the wait and futex protocol and the ordered spinlocks as interleaved steps under sequential consistency, the pipe ring with its whole history, process-group lists threaded through the task table.
- **Calendar** (`Calendar`): the two Gregorian conversions.

Code that changes state in place is a class whose methods are proved against relations on values; the lemmas about those relations carry the main results. Concurrent code is a relation between states, one shared access per step. `Bits`, `Bytes`, `Options` and `Counting` are shared helpers.

Intrusive lists (free lists, slab lists, heap bins) are sequences; the heap's block list and the process groups keep their links, because the links are what is proved. C integers are unbounded except where width matters: the FAT code's 32-bit offsets and generation, the `int` a write returns, the saturating share counter, the packed time words, the 64-bit sizes of slab layouts, of heap segments and of a heap block that is split.

## Where the code does not keep the obvious promise

A run named here is one of the model, from its first state to the state that breaks the promise.

- A fork is sound exactly when the forking space owns all its pages and the counters have room (`Cow.ForkExact`): a page inherited from an earlier fork gets no reference for the grandchild (`Cow.InheritedForkDangles`, with the run `CowSpace.GrandchildDangles`).
- A fork keeps write permissions exactly when all pages were writable (`Cow.ForkPermissions`, with the run `CowSpace.ReadOnlyWritten`).
- A fork that runs out of frames for the child's tables leaves the counts right exactly when the page it stops at was shared before (`Cow.ForkFailExact`); otherwise that page's frame is never freed (`Cow.FailedForkLoses`, with the run `CowSpace.FailedForkLeaks`).
- The slab lists stay right exactly when a slab holds at least two objects (`Slab.PutLists`, `SlabPages.Kmem.Free`); objects of 200000 bytes have a slab each (`SlabPlan.OneObject`), and 33 of them taken and returned leave a slab that was given back to the page allocator on the list of partly used ones (`SlabRun.ReachGone`).
- A cache's objects are as large as asked and inside their slab exactly when the sizes do not wrap and the alignment leaves room (`SlabPlan.LayoutExact`, with the input `SlabPlan.SizeWraps`).
- `kmalloc` of 16 bytes takes the first block of its bin, which two earlier requests can have made one of 8 bytes (`Heap.ReachShort`). The length left over then wraps: a header is written into the next block's header, and a block of almost 2^64 bytes goes into the bins. The list of blocks survives a request exactly when this is not the case (`Heap.OverrunBreaks`, `Heap.Allocator.KmallocLocked`).
- `krealloc` to a smaller size leaves two free neighbours exactly when the rest it splits off is followed by a free block (`Heap.Allocator.Shrink`, with the run `Heap.ReachPair`); `kmalloc` and `kfree` never do.
- For many large requests growing the heap does not help (`Heap.GrowHelps`, `Heap.GrowMisses`, `Heap.GrowWraps`).
- Freeing a virtual range is dropped when the array is full (`VaRange.AllocThenFree`, with the run `VaRange.LosesPage`).
- `pmm_free` accepts every page that was free at the start if and only if the regions of the memory map after the first 128 hold no page (`Pmm.Manager.constructor`, `Pmm.FirstSuffices`).
- A cached chain position is trusted again after exactly 2^32 table writes (`FatCache.StaleRead`).

## Model

| member | source | states |
|---|---|---|
| `Buddy.ListedIffMaximal` | src/kernel/mm/pmm/pmm.c:107-139 | a block is on a free list exactly when it is a maximal aligned power-of-two run of free pages, up to order 14 |
| `Buddy.HistoryIndependent` | src/kernel/mm/pmm/pmm.c:107-139 | two states with the same free pages have the same free lists, as multisets, whatever happened before |
| `Buddy.SplitOff` | src/kernel/mm/pmm/pmm.c:107-125 | splitting a block and putting its upper half on the list below keeps the buddy invariant around the hole |
| `Buddy.Merge` | src/kernel/mm/pmm/pmm.c:127-139 | a free buddy of the right order merges with the hole into the hole of the next order |
| `Pmm.OneOwner` | src/kernel/mm/pmm/pmm.c:201-283 | every managed page is in exactly one free block, CPU cache or live allocation |
| `Pmm.LiveDisjoint` | src/kernel/mm/pmm/pmm.c:260-283 | live allocations are pairwise disjoint and meet no free block and no cached page |
| `Pmm.OrderForPages` | src/kernel/mm/pmm/pmm.c:55-58 | the least order whose block holds the pages |
| `Pmm.Manager.constructor` | src/kernel/mm/pmm/pmm.c:153-199 | afterwards the free pages are exactly the whole pages of usable memory, and the invariant holds; all of them can be freed later if and only if no page lies in a region after the first 128 |
| `Pmm.PagesLeast` | src/kernel/mm/pmm/pmm.c:153-166 | the page states reach just to the end of usable memory |
| `Pmm.Manager.BuddyAlloc` | src/kernel/mm/pmm/pmm.c:107-125 | takes an aligned block of free pages, and fails only if there is no aligned free run of that order |
| `Pmm.Manager.BuddyFree` | src/kernel/mm/pmm/pmm.c:127-139 | frees exactly the block, re-establishes maximality of all free blocks, changes no other page |
| `Pmm.Manager.AllocCached` | src/kernel/mm/pmm/pmm.c:201-234 | takes one available page through the CPU cache, refilled from the buddy lists; fails only if cache and lists are empty |
| `Pmm.Manager.FreeCached` | src/kernel/mm/pmm/pmm.c:236-258 | makes exactly one page available; a full cache first gives half of its pages back |
| `Pmm.Manager.Alloc` | src/kernel/mm/pmm/pmm.c:260-283 | exactly an aligned block of available pages becomes a live allocation; both directions of when it fails |
| `Pmm.Manager.Free` | src/kernel/mm/pmm/pmm.c:293-336 | any page of a live block releases that block once; anything else, a repeated free included, changes nothing |
| `Pmm.Manager.Refill` | src/kernel/mm/pmm/pmm.c:201-234 | moves pages from the buddy lists to a CPU cache without changing which pages are available |
| `Pmm.Manager.FlushHalf` | src/kernel/mm/pmm/pmm.c:236-258 | moves pages from a CPU cache to the buddy lists without changing which pages are available |
| `PageTree.SameTree` | src/kernel/mm/vmm/vmm.c:77-127 | canonical form: trees without empty tables that answer every query alike and agree on frames and inner flags are identical |
| `PageRel.Restores` | src/kernel/mm/vmm/vmm.c:147-219 | a grown tree that is shrunk back to the old flat map without empty tables is the old tree, frame by frame |
| `PageTable.CreateAddressSpace` | src/kernel/mm/vmm/vmm.c:596-611 | fails exactly when there is no frame for the root; otherwise the new space maps nothing in the lower half and has the kernel entries in the upper half |
| `PageTable.AddressSpace.Walk` | src/kernel/mm/vmm/vmm.c:77-107 | only adds tables on the path of the page, keeps every query, leaves a path that was ready alone, and keeps every inner entry open to user mode, writes and fetches |
| `PageTable.AddressSpace.Reclaim` | src/kernel/mm/vmm/vmm.c:109-127 | returns exactly the empty tables on the path, bottom up, and keeps every query |
| `PageTable.AddressSpace.ReclaimRange` | src/kernel/mm/vmm/vmm.c:147-151 | after it only tables that were empty before the operation can be empty |
| `PageTable.AddressSpace.MapIn` | src/kernel/mm/vmm/vmm.c:153-185 | adds exactly the range to the flat map, or leaves the map unchanged and returns every table page it took; succeeds when nothing is mapped there and frames suffice; inner entries stay open either way |
| `PageTable.AddressSpace.UnmapIn` | src/kernel/mm/vmm/vmm.c:191-219 | succeeds exactly when the whole range is mapped, then removes exactly it; otherwise changes nothing |
| `PageWalk.LeafDecides` | src/kernel/mm/vmm/vmm.c:77-107 | in a root whose inner entries are open, what the processor lets user mode do with a page is what its leaf entry says |
| `PageWalk.MappedRights` | src/kernel/mm/vmm/vmm.c:153-185 | after a user mapping user mode may do with each page of the range just what the flags say, and with every other page what it could before |
| `PageWalk.MapThenUnmap` | src/kernel/mm/vmm/vmm.c:153-219 | map then unmap gives back the identical tree and free frames of any root without empty tables |
| `PageVisit.VisitIff` | src/kernel/mm/vmm/vmm.c:272-322 | a recursive walk of the tables meets a page exactly when it is mapped |
| `PageVisit.VisitOrder` | src/kernel/mm/vmm/vmm.c:272-322 | and meets the pages in ascending order, so each once |
| `PageVisit.WalkIsLoop` | src/kernel/mm/vmm/vmm.c:272-331 | the recursive walk of a whole space meets the same pages in the same order as a loop over page numbers |
| `PageVisit.VisitSpace` | src/kernel/mm/vmm/vmm.c:272-331 | the walk of a space goes through exactly its mapped pages, in ascending order |
| `PageVisit.FreeableIff` | src/kernel/mm/vmm/vmm.c:568-581 | a table passes the check before it is freed if and only if no page below it is mapped |
| `PageVisit.TableFree` | src/kernel/mm/vmm/vmm.c:583-594 | returns the table and the tables below it in its space, each once, bottom up |
| `PageVisit.FreeSpace` | src/kernel/mm/vmm/vmm.c:688-717 | returns exactly the table pages below entries of the root without a mapped page, each once, and counts the other entries; the root goes if and only if no page is mapped |
| `Cow.RunRefines` | src/kernel/mm/vmm/vmm.c:272-420 | over any run of mappings, writes, forks and destructions every space sees the bytes, the user bit and the no-execute bit that it would see if fork copied every page, and the counting invariant holds |
| `Cow.StepRefines` | src/kernel/mm/vmm/vmm.c:225-331 | each operation keeps the invariant and does to what the spaces see what it does to private copies |
| `Cow.WriteIsolated` | src/kernel/mm/vmm/vmm.c:384-420 | no write through one space changes a byte read through any other leaf |
| `Cow.ForkExact` | src/kernel/mm/vmm/vmm.c:272-331 | after a fork the counts are exact and every leaf is sound if and only if the forking space owns all its pages and the counters have room |
| `Cow.ForkedToExact` | src/kernel/mm/vmm/vmm.c:272-322 | a fork that has come to a page is sound so far if and only if the space owns the pages below it and their counters have room |
| `Cow.ForkFailExact` | src/kernel/mm/vmm/vmm.c:272-322 | a fork that finds no frame for the child's tables leaves the counts exact if and only if the page it stops at was shared before |
| `Cow.FailedForkLoses` | src/kernel/multitask/task.c:640-657 | otherwise that page's frame is lost: when parent and child are gone nobody maps it and it is not free |
| `Cow.ForkUnsound` | src/kernel/mm/vmm/vmm.c:302-313 | a page that is not owned, or a counter without room, breaks the invariant |
| `Cow.ForkFlags` | src/kernel/mm/vmm/vmm.c:286-313 | bit by bit, what the fork of any page leaves in the parent's and the child's entry: same frame, same permission to execute, open to user mode, a pinned page unchanged, any other without write permission and marked, and the child owning nothing |
| `Cow.InheritedForkDangles` | src/kernel/mm/vmm/vmm.c:272-331 | for every fork of an inherited page: once parent and child are gone the frame is free while the grandchild maps it |
| `Cow.ForkPermissions` | src/kernel/mm/vmm/vmm.c:272-322 | parent and child keep their write permissions if and only if every page of the forking space was writable |
| `Cow.ResolvedInv` | src/kernel/mm/vmm/vmm.c:384-420 | resolving a fault gives up one reference, frees the frame with the last one, and keeps the counts exact |
| `Cow.DestroyedInv` | src/kernel/mm/vmm/vmm.c:639-720 | destroying a space gives back each reference it holds and each frame it owns alone exactly once |
| `Cow.MappedFreshInv` | src/kernel/mm/vmm/vmm.c:153-185 | mapping a frame from the pool as an owned page keeps the counts exact |
| `CowSpace.Spaces.constructor` | src/kernel/mm/pmm/pmm.c:153-199 | with every frame in the pool and no space, the counting invariant holds |
| `CowSpace.Spaces.ShareRef` | src/kernel/mm/pmm/pmm.c:84-91 | the counter goes up by one and saturates at 255 |
| `CowSpace.Spaces.UnshareRef` | src/kernel/mm/pmm/pmm.c:93-105 | the counter goes down by one unless it is 0, and the last reference is reported |
| `CowSpace.Spaces.ShareUserSpace` | src/kernel/mm/vmm/vmm.c:272-331 | going through the pages in the order of the walk performs the fork relation on the whole space, or, when a frame for the child's tables is missing, on the pages before that one |
| `CowSpace.Spaces.CowResolve` | src/kernel/mm/vmm/vmm.c:384-420 | succeeds exactly for a copy-on-write page with a free frame, and then gives the page its own copy, writable and owned, with its user and no-execute bits kept |
| `CowSpace.Spaces.WriteByte` | src/kernel/mm/vmm/vmm.c:384-420 | a write, with the fault it may take, is one write of the refinement, or changes nothing |
| `CowSpace.Spaces.ReleaseShared` | src/kernel/mm/vmm/vmm.c:662-679 | releases one reference for every shared leaf of the range |
| `CowSpace.Spaces.ReclaimOwned` | src/kernel/mm/vmm/vmm.c:639-660 | returns every frame that a leaf of the range owns alone and clears the leaves |
| `CowSpace.Spaces.DestroyAddressSpace` | src/kernel/mm/vmm/vmm.c:681-698 | the two passes, subtree by subtree, perform the destruction of the whole space |
| `CowSpace.Spaces.Perform` | src/kernel/mm/vmm/vmm.c:272-420 | each operation of the kernel, run from a sound state, leaves a sound state if and only if it is no fork of a space with pages it does not own or without room in a counter; it then acts as on private copies |
| `CowSpace.Spaces.PerformAll` | src/kernel/mm/vmm/vmm.c:272-420 | a run of operations leaves every space reading what it would read if fork copied every page, up to the first that cannot be served |
| `CowSpace.GrandchildDangles` | src/kernel/mm/vmm/vmm.c:272-331 | a run: one page, a fork, a fork of the fork, both older spaces destroyed; the page of the youngest space is then in the pool |
| `CowSpace.ReadOnlyWritten` | src/kernel/mm/vmm/vmm.c:300-313 | a run: a page that cannot be written can be written after a fork |
| `CowSpace.FailedForkLeaks` | src/kernel/multitask/task.c:640-657 | a run: after a fork that fails and the end of both spaces a frame is missing from the pool |
| `FatTable.NewChain` | src/kernel/fs/fs.c:1012-1017 | an allocated cluster is a new chain of the forest |
| `FatTable.LongerChain` | src/kernel/fs/fs.c:754-765 | linking a free cluster behind the last one keeps the table a forest of disjoint acyclic chains |
| `FatTable.FreeWhole` | src/kernel/fs/fs.c:289-298 | freeing a chain leaves exactly the other chains |
| `FatTable.CutChain` | src/kernel/fs/fs.c:945-975 | freeing the tail and marking the new end leaves the shortened chain and all others |
| `FatWalk.ChainReach` | src/kernel/fs/fs.c:300-309 | from a cluster of a chain the walk reaches exactly the rest of the chain and never leaves the volume |
| `FatWalk.ClosedReach` | src/kernel/fs/fs.c:289-298 | a set closed under links holds everything a walk reaches, on any table |
| `FatWalk.ClosedStays` | src/kernel/fs/fs.c:289-298 | a walk from a set closed under links does not stray from the volume, on any table |
| `FatVolume.Volume.FatAlloc` | src/kernel/fs/fs.c:272-287 | gives the first free cluster, and fails only if there is none |
| `FatVolume.Volume.FatExtend` | src/kernel/fs/fs.c:754-765 | gives the next cluster of the chain, linking in a free one at its end; fails only at the end of a chain on a full volume |
| `FatVolume.Volume.FatFreeChain` | src/kernel/fs/fs.c:289-298 | on any table, cyclic ones included, it ends and frees only clusters reached from the first; it frees all of them if it succeeds, and fails exactly when the walk strays from the volume |
| `FatVolume.Volume.WriteSectors` | src/kernel/fs/fs.c:1032-1058 | the sector loop replaces exactly the bytes written so far and stops early only on a full volume at the end of the chain |
| `FatVolume.Volume.Write` | src/kernel/fs/fs.c:990-1067 | on the sectors of the device, through the sector cache: success is a splice with zero fill of any gap; failure means a full volume and says exactly which bytes are in place; a file without clusters gets a first one that was no file's, and all other files keep theirs |
| `FatVolume.Volume.ZeroFill` | src/kernel/fs/fs.c:977-988 | lengthens the file by zeros, as far as the volume has room |
| `FatVolume.Volume.Shrink` | src/kernel/fs/fs.c:950-974 | keeps exactly the first bytes and the fewest clusters that hold them |
| `FatVolume.Volume.Resize` | src/kernel/fs/fs.c:945-988 | on the sectors of the device: cuts the file or extends it with zeros; all other files keep their bytes |
| `FatVolume.Volume.Truncate` | src/kernel/fs/fs.c:1069-1079 | an empty file, with exactly its clusters freed |
| `FatVolume.Volume.Read` | src/kernel/fs/fs.c:1292-1354 | from the sectors of the device, through the sector cache and the cache of chain positions: exactly the slice of the file, each byte from the place that arithmetic on its position gives, whichever path the buffer address selects, unless the cached position is 2^32 table writes old |
| `FatVolume.Volume.WriteThenRead` | src/kernel/fs/fs.c:990-1067 | what a successful write wrote is what a read there returns, wherever the file ended before, unless the reader's cached position is then 2^32 table writes old |
| `FatVolume.Volume.WriteBeside` | src/kernel/fs/fs.c:990-1067 | a write to one file, whether it succeeds or not, leaves the bytes of every other file as they were |
| `FatVolume.Volume.WriteSector` | src/kernel/fs/fs.c:1033-1045 | overlaying and writing back one sector changes those bytes of the cluster on the device and no others; the table and its caches stay true |
| `FatVolume.Volume.SetEntry` | src/kernel/fs/fs.c:258-270 | writing one entry leaves the contents of all clusters as they were |
| `FatWrite.WrittenAll` | src/kernel/fs/fs.c:1060-1066 | the file after a write is the splice, with its new length taken from 32-bit arithmetic |
| `FatWrite.FileBound` | src/kernel/fs/fs.c:170-190 | within the mount bounds no file size, rounded up by a cluster, reaches 2^32 |
| `FatWrite.NoWrap` | src/kernel/fs/fs.c:945-955 | so 32-bit arithmetic on offsets is exact |
| `FatBytes.WriteAt` | src/kernel/fs/fs.c:1033-1045 | replacing bytes within one cluster replaces the same bytes of the file and no others |
| `FatDisk.StoreIn` | src/kernel/fs/fs.c:205-207 | storing one sector of a cluster changes that part of the cluster, and no other cluster |
| `FatDisk.ClusterOfSector` | src/kernel/fs/fs.c:205-207 | every sector from the start of the data area on belongs to exactly one cluster, and cluster 2 comes first |
| `FatVolume.Volume.BytesOnDevice` | src/kernel/fs/fs.c:1033-1034 | byte p of a file is byte p % 512 of sector start + (ch[p / cs] - 2) * spc + p % cs / 512 |
| `FatCache.Table.FatEntry` | src/kernel/fs/fs.c:238-247 | the entry read through the sector cache is the entry on disk |
| `FatCache.Table.FatSet` | src/kernel/fs/fs.c:258-270 | writes one word for any cluster number from 2 to 0xFFF6 whose sector exists and counts one more write; only that entry of the table changes, if it is one; all cached facts stay true |
| `FatCache.Table.DataWrite` | src/kernel/fs/fs.c:226-230 | a sector write outside the table keeps every cached fact |
| `FatCache.Table.FatReadCluster` | src/kernel/fs/fs.c:311-344 | cached lookup equals the plain walk while the slot is less than 2^32 table writes old; in any case it is the walk from where a matching slot left off, or else the plain walk |
| `FatCache.StaleRead` | src/kernel/fs/fs.c:311-344 | after exactly 2^32 table writes a relinked file is looked up in its old cluster |
| `Lfn.BuildEntry` | src/kernel/fs/fs.c:711-730 | the entry holds its part of the name, its order, the end mark, the checksum and its zero fields |
| `Lfn.WriteNamed` | src/kernel/fs/fs.c:738-752 | the entries are the parts of the name, last part first, as few as hold it, each with the checksum of the short entry |
| `Lfn.Parser.Parse` | src/kernel/fs/fs.c:471-498 | accepts exactly the well-formed entries and says the whole new state, byte by byte |
| `Lfn.SeeAll` | src/kernel/fs/fs.c:500-505 | the mask test holds exactly when every part up to the last was seen |
| `Lfn.SeeMore` | src/kernel/fs/fs.c:488 | setting the bit of a part adds that part to those seen and no other |
| `Lfn.Parser.Valid` | src/kernel/fs/fs.c:500-505 | true exactly when there is a last part, each part up to it was seen, and the checksum matches the short entry |
| `Lfn.SfnChecksum` | src/kernel/fs/fs.c:464-469 | the loop computes the rotating sum of the first 11 bytes |
| `Lfn.ChangeShows` | src/kernel/fs/fs.c:464-469 | changing any one byte changes the checksum |
| `Lfn.SwapShows` | src/kernel/fs/fs.c:464-469 | swapping two neighbouring bytes changes the checksum if and only if they differ and do not bring the sum to 0 and 255 |
| `Lfn.ReadName` | src/kernel/fs/fs.c:507-511 | parsing the parts of a valid name in directory order gives that name |
| `Lfn.RoundTrip` | src/kernel/fs/fs.c:707-752 | a name of 1 to 255 ASCII characters written before any short entry is read back whole |
| `Calendar.CivilRoundTrip` | src/arch/x86_64/rtc/rtc.c:61-68 | the day-to-date computation recovers every valid Gregorian date, in all years |
| `Calendar.DaysCount` | src/arch/x86_64/rtc/rtc.c:61-68 | the day after a date has the next day number |
| `Calendar.Epoch` | src/arch/x86_64/rtc/rtc.c:61-68 | day 0 is the first of January 1970 |
| `Calendar.DayRoundTrip` | src/kernel/fs/fs.c:880-905 | every day number, before and after the epoch, is mapped to a valid date whose number it is |
| `Calendar.YearBack` | src/kernel/fs/fs.c:886-889 | the year of the era is recovered from the day of the era |
| `Calendar.StampRoundTrip` | src/kernel/fs/fs.c:880-905 | the packed words decode to the date, if its year is 1980 to 2107, else to the same day of 1980 or 2107, and to the time to two seconds |
| `Calendar.EveryStamp` | src/kernel/fs/fs.c:880-905 | every second before and after the epoch is that of a date and time, and its stamp decodes to them |
| `Wait.RunInv` | src/kernel/multitask/task.c:1228-1319 | the protocol invariant holds in every state of every interleaving |
| `Wait.HitReleases` | src/kernel/multitask/task.c:1228-1266 | in every interleaving a waker that comes by a registered task releases it: when the waker has gone on, the task is not blocked in its sleep loop, as long as it has not begun another call |
| `Wait.FutexWoken` | src/kernel/multitask/task.c:1268-1319 | once a waker that stored the word has finished its scan, and until it begins anew, no futex waiter sleeps blocked on a value that the word has not had since the store |
| `Wait.WokenByRelease` | src/kernel/multitask/task.c:1228-1257 | in every run a task that wakes was released by a waker since it began its call |
| `Wait.StaysAsleep` | src/kernel/multitask/task.c:1228-1319 | in every run a waiter in its sleep loop that was not released since is blocked and has no step of its own; a futex waiter not released leaves only after a fault or a word other than it expects |
| `Wait.WaiterGoesOn` | src/kernel/multitask/task.c:1228-1319 | every waiter that is not asleep and blocked has a next step, and from the sleep loop it leads out |
| `Wait.WakerGoesOn` | src/kernel/multitask/task.c:1261-1266 | every waker under way has a next step, takes up exactly the tasks with its channel, and ends after boundedly many steps |
| `Wait.TaskAfterOk` | src/kernel/multitask/task.c:1228-1257 | each step of a waiter keeps what every waker knows about it |
| `Wait.ReleaseOk` | src/kernel/multitask/task.c:938-943 | bumping the generation and then clearing the flag, as two steps, keeps the invariant |
| `Locks.RunInv` | src/kernel/sync/sync.c:27-89 | the lock invariant holds in every state of every run on any number of CPUs |
| `Locks.MutualExclusion` | src/kernel/sync/sync.c:54-89 | each lock has at most one holder, its flag is set, and the depth counts the bits of the mask, at most 8 |
| `Locks.PanicsExactly` | src/kernel/sync/sync.c:54-89 | in every reachable state an acquire is refused exactly if a lock at or after it is held or 8 are held, and a release exactly if the lock is not held |
| `Locks.NoWaitCycle` | src/kernel/sync/sync.c:54-75 | the wait-for relation has no cycle |
| `Locks.WaitsEnd` | src/kernel/sync/sync.c:54-89 | from every CPU, following who waits for whom leads to one that is not held up |
| `Locks.NoDeadlock` | src/kernel/sync/sync.c:54-89 | in every reachable state without a panic, each CPU that spins has a schedule of further steps on which it gets its lock |
| `SlabSpace.SlabOfObj` | src/kernel/mm/slab/slab.c:65-69 | masking the address of an object gives its slab, because slabs are naturally aligned |
| `SlabSpace.BlockFresh` | src/kernel/mm/pmm/pmm.c:260-283 | a block just allocated is none of the slabs held, and these stay live |
| `SlabSpace.BlockGiven` | src/kernel/mm/pmm/pmm.c:293-336 | giving the block of one slab back leaves the other slabs live, and the same pages available or in slabs |
| `SlabPlan.Plan` | src/kernel/mm/slab/slab.c:153-191 | computes the layout in 64-bit arithmetic, and gives up exactly for size 0 or if no object fits |
| `SlabPlan.LayoutExact` | src/kernel/mm/slab/slab.c:162-187 | objects are as large as asked, behind the header and inside the slab if and only if no sum wraps and the header leaves room in the largest slab |
| `SlabPlan.LayoutTight` | src/kernel/mm/slab/slab.c:162-187 | then the padding is less than the alignment, and a slab lays out as many objects as it holds |
| `SlabPlan.FewestPages` | src/kernel/mm/slab/slab.c:170-181 | a slab has the fewest pages, as a power of two, that hold 8 objects, or one object with 64 pages or more, but at most 65536 |
| `SlabPlan.SizeWraps` | src/kernel/mm/slab/slab.c:162-187 | a size of 2^64-1 with alignment 16 wraps: the cache is made, with objects of 8 bytes |
| `SlabPlan.LayoutAligned` | src/kernel/mm/slab/slab.c:162-187 | for an alignment that is a power of two, with those below 16 counted as 16, the first object and the object size are multiples of it |
| `SlabPlan.TwoObjects` | src/kernel/mm/slab/slab.c:172-187 | slabs hold at least two objects if and only if the least slab of 64 pages or more that fits one fits two |
| `SlabPlan.OneObject` | src/kernel/mm/slab/slab.c:172-187 | objects of 200000 bytes get a slab of 64 pages each |
| `Slab.PutLists` | src/kernel/mm/slab/slab.c:132-151 | returning an object keeps the slab lists right if and only if a slab holds at least two objects |
| `Slab.Cache.Refill` | src/kernel/mm/slab/slab.c:99-130 | moves as many objects as fit from a partial, else an empty, else a new slab to an empty magazine; no caller's object moves |
| `Slab.Cache.PutLast` | src/kernel/mm/slab/slab.c:132-151 | one object goes from a magazine to its slab; use count and list membership agree again if slabs hold two objects or more |
| `SlabPages.Holding.Fetch` | src/kernel/mm/slab/slab.c:71-75 | a block of available pages, aligned to its size in bytes and none of the slabs held, or nothing exactly when the page allocator has none |
| `SlabPages.Holding.Give` | src/kernel/mm/slab/slab.c:94-97 | the pages of the slab become available, if they lie in a region the page allocator knows; the other slabs stay live |
| `SlabPages.Kmem.Alloc` | src/kernel/mm/slab/slab.c:203-223 | hands out an object nobody has; fails exactly when a new slab is needed and there are no pages for it; no page is lost |
| `SlabPages.Kmem.Free` | src/kernel/mm/slab/slab.c:225-244 | exactly that object leaves the callers' hands; the cache stays right if and only if slabs hold two objects or more or the magazine had room; otherwise the first slab on the list of partly used ones has been given back to the page allocator; no page is lost |
| `SlabPages.CacheCreate` | src/kernel/mm/slab/slab.c:153-201 | a cache without slabs, or nothing exactly when the size is 0, the layout has no object or there is no memory for the cache itself; its layout is sound if and only if the sizes fit |
| `SlabRun.ReachGone` | src/kernel/mm/slab/slab.c:132-151 | a run: 33 objects of 200000 bytes taken and returned leave a slab that was given back to the page allocator first on the list of partly used ones |
| `HeapList.MergeTiled` | src/kernel/mm/heap/heap.c:76-95 | merging two neighbours keeps every segment exactly tiled and the links mutually inverse |
| `HeapList.SplitTiled` | src/kernel/mm/heap/heap.c:203-222 | splitting keeps the tiling and the links |
| `HeapList.AppendTiled` | src/kernel/mm/heap/heap.c:155-178 | a new segment becomes one free block behind the last |
| `HeapList.DropTiled` | src/kernel/mm/heap/heap.c:111-126 | dropping a segment that is one block keeps the others tiled |
| `Heap.BinFits` | src/kernel/mm/heap/heap.c:224-235 | a block in a bin that the allocator takes from is long enough if and only if it has at least 16 bytes |
| `Heap.GrowFits` | src/kernel/mm/heap/heap.c:130-139 | growing maps the fewest whole pages that hold the request and its header, but at least 32, unless the rounding wraps |
| `Heap.GrowHelps` | src/kernel/mm/heap/heap.c:130-183 | growing yields a block the allocator will take if and only if a power of two lies between request and block size |
| `Heap.GrowMisses` | src/kernel/mm/heap/heap.c:224-239 | for every request of 65537 to 131016 bytes the segment grown for it goes into a bin that the request does not look into |
| `Heap.OverrunBreaks` | src/kernel/mm/heap/heap.c:203-222 | 16 bytes taken from a shorter block: the difference wraps, and no order of the blocks tiles the segments any more |
| `Heap.OverrunLeaves` | src/kernel/mm/heap/heap.c:203-222 | the headers that this leaves, byte counts included: the block with 16 bytes, and behind it a free one of almost 2^64 |
| `Heap.ReachShort` | src/kernel/mm/heap/heap.c:224-239 | two requests after the heap is set up lead to a block of 8 bytes as the first one for 16-byte requests |
| `Heap.TakeFits` | src/kernel/mm/heap/heap.c:224-235 | the first block of the first non-empty bin fits unless the request is 16 bytes and that block is shorter |
| `Heap.Allocator.Coalesce` | src/kernel/mm/heap/heap.c:76-95 | ends with the whole maximal run of free blocks around the block and touches nothing else; so no two neighbours of one segment are free if none were but with the block |
| `Heap.Allocator.Trim` | src/kernel/mm/heap/heap.c:97-128 | removes last segments until the last one is not wholly free, and no allocated block |
| `Heap.Allocator.Kfree` | src/kernel/mm/heap/heap.c:263-283 | exactly that allocation goes; tiling, links and bins stay right, free neighbours do not arise, and where there are none the last segment left holds an allocation; double frees and foreign pointers change nothing and are told apart |
| `Heap.Allocator.Split` | src/kernel/mm/heap/heap.c:203-222 | cuts the block and bins the rest if it holds more than a header; for a shorter block it writes what the wrapped difference leads to |
| `Heap.Allocator.Grow` | src/kernel/mm/heap/heap.c:130-183 | adds one segment as one binned free block, up to 256 segments |
| `Heap.Allocator.KmallocLocked` | src/kernel/mm/heap/heap.c:224-239 | succeeds exactly when a bin it looks into has a block, or growing is possible and helps; then exactly one new allocation of at least the size; blocks still tile the segments if and only if the request is not for 16 bytes with a shorter block first in its bin; free neighbours do not arise |
| `Heap.Allocator.Kmalloc` | src/kernel/mm/heap/heap.c:241-252 | the same for sizes rounded up to 16; nothing for 0 and for sizes whose rounding or header would wrap |
| `Heap.Allocator.Shrink` | src/kernel/mm/heap/heap.c:331-334 | the block keeps its place with the new size, all others stay; two free neighbours arise if and only if the rest is split off in front of a free block of its segment |
| `Heap.Allocator.Krealloc` | src/kernel/mm/heap/heap.c:318-346 | refuses what is no allocation, shrinks in place, or replaces the allocation by one of at least the size; fails exactly as the allocation would, and then changes no allocation |
| `Heap.ShrinkPairs` | src/kernel/mm/heap/heap.c:203-222 | splitting a block in use leaves two free neighbours exactly when a free block of its segment follows |
| `Heap.ReachPair` | src/kernel/mm/heap/heap.c:331-334 | a run: an allocation of 1000 bytes in front of a free block, shrunk to 32 bytes, leaves two free neighbours |
| `Heap.GrowWraps` | src/kernel/mm/heap/heap.c:130-139 | for requests within a page of 2^64 the rounding wraps: the least segment is mapped and the request does not use it |
| `VaRange.ListUnique` | src/kernel/mm/vmm/vmm_va.c:3-59 | which addresses are free determines the list, whatever the order of operations |
| `VaRange.AllocThenFree` | src/kernel/mm/vmm/vmm_va.c:11-59 | freeing what was allocated gives back the identical list if and only if a node is spare then |
| `VaRange.LosesPage` | src/kernel/mm/vmm/vmm_va.c:11-59 | a run: with every node of the array in use, a page taken and freed again is free no more |
| `VaRange.Ranges.constructor` | src/kernel/mm/vmm/vmm_va.c:3-9 | the list covers exactly the range |
| `VaRange.Ranges.Alloc` | src/kernel/mm/vmm/vmm_va.c:11-29 | removes exactly the returned range, first fit, or fails because no range is long enough |
| `VaRange.Ranges.Free` | src/kernel/mm/vmm/vmm_va.c:31-59 | unless no node is spare, the list stays sorted, disjoint and non-touching if and only if the range overlaps no free one, and then exactly the range is added |
| `Pgroups.SpareGroup` | src/kernel/multitask/task.c:111-124 | by pigeonhole there is always a free group slot for a task that is in no group |
| `Pgroups.MembersAreListed` | src/kernel/multitask/task.c:1393-1413 | the live tasks with a group id are exactly the members of the used groups with that id |
| `Pgroups.Table.Unlink` | src/kernel/multitask/task.c:126-154 | takes the task off its list; every other list, count and link stays right |
| `Pgroups.Table.FindOrCreate` | src/kernel/multitask/task.c:104-124 | finds the group or makes it, and never runs out of slots |
| `Pgroups.Table.Join` | src/kernel/multitask/task.c:156-175 | the task is in the group with its ids, and all lists agree with the table |
| `Pgroups.Table.Exit` | src/kernel/multitask/task.c:1135-1139 | the task leaves its group and is no longer alive |
| `Pgroups.Table.KillPgrp` | src/kernel/multitask/task.c:1403-1412 | signals exactly the live tasks with the group id |
| `Pgroups.Table.ScanKill` | src/arch/x86_64/syscall/syscall.c:1174-1178 | the scan of the task table from slot 1 on signals exactly the live tasks with the group id, as the walk of the list does |
| `Pgroups.Table.SysKillGroup` | src/arch/x86_64/syscall/syscall.c:1169-1183 | reports no such group exactly when there is no live task with the id; otherwise signals exactly these, and none for signal 0 |
| `Pgroups.GroupIffMember` | src/kernel/multitask/task.c:1441-1445 | a group id has a used group exactly when it has a live task |
| `Pipe.Contiguous` | src/kernel/pipe/pipe.c:80-132 | every accepted write is one contiguous piece of the stream |
| `Pipe.Pair.ReadAt` | src/kernel/pipe/pipe.c:35-78 | bytes read so far and the ring make up the bytes written; end of file exactly when the ring is drained and no write end is left |
| `Pipe.Pair.WriteAt` | src/kernel/pipe/pipe.c:80-132 | appends what fits; a write of at most 4096 bytes is taken whole or not at all; a failed copy leaves the contents alone |
| `Pipe.Pair.FdWrite` | src/kernel/fd/fd.c:552-567 | whatever others do in between, the retry loop puts exactly a prefix of the buffer into the stream, and a write of at most 4096 bytes whole and in one piece or not at all; it stops short only when no read end is left, or when the wait is broken off and there is no room |
| `Pipe.Pair.Close` | src/kernel/pipe/pipe.c:206-225 | one end less of its kind, and the last close is reported |

## Left out

- Drivers, port and memory-mapped I/O, TLB invalidation, interrupt masking, assembly and the boot protocol: no state that these properties speak of.
- The VFS, device files, path lookup, directory growth and the short-name generator; `fs_node_sync_entry` is left out too, so the size and first cluster a file operation ends with are those of the node in memory, not yet of the directory entry.
- Device errors in the FAT code: every sector read and write succeeds. The volume is well formed: the table covers all clusters and their numbers stay below 0xFFF7; the mount check alone would allow one more cluster number.
- Mounting a second device: the sector caches are keyed by sector number and table start only.
- Physical memory operations are atomic; spinlocks around them and interrupts between them are not modelled. The share counters are modelled in `Cow` and not in `Pmm`.
- Large pages, the accessed, dirty, global and cache-control bits of page-table entries, and the kernel half of a root beyond copying it. An entry that is not present is 0.
- The flat copy-on-write state has no table pages; left out are `vmm_protect`, `vm_free_range` and pinning after a fork.
- The eager clone is the reference machine of `Cow`, not a separate loop.
- `kzalloc` and `kcalloc`; the contents of heap blocks, which `krealloc` copies; the mapping work of `heap_grow`, whose result is a parameter.
- Waiting for children and vfork, which use their own wake-ups; deadlines, so that the timer may wake any task; the 64-bit generation counter does not wrap; preemption of a task that is already marked blocked.
- Panics stop the machine in `Locks`; migration during an acquire is left out.
- The blocking loop of pipe reads, `poll`, and the creation of pipes. Faults while copying from a writer end its retry loop and are left out there.
- Signal 0 in `task_kill_pgrp`, for which the source shifts by a negative amount, and group id 0, which addresses every task.
- Slab.Cache.Refill: the block for a new slab is handed in; `SlabPages.Kmem` gets it from the page allocator and shows that it suits.
- Slab.Cache.PutLast: once lists are wrong, with one object to a slab, the sequences no longer say where the intrusive links lead.
- CowSpace.Spaces.ShareUserSpace: a loop over page numbers, which `PageVisit.WalkIsLoop` shows to be the order of the recursive walk; at which page the frames for the child's tables run out is a parameter.
- CowSpace.Spaces.ReleaseShared: a loop over the page numbers of a subtree in the order of the recursive walk.
- CowSpace.Spaces.ReclaimOwned: a loop over the page numbers of a subtree in the order of the recursive walk.
- CowSpace.Spaces.DestroyAddressSpace: returning the table pages is `PageVisit.FreeSpace`, not part of this state.
- Heap.Allocator.Trim: unmapping the segment and returning its pages and range are left out.
- Heap.Allocator.Grow: the range, pages and mapping are a parameter.
- Heap.Allocator.Split: what the overwritten header holds is a parameter.
- Lfn.ReadName: characters that are not ASCII are left out, because names with them are refused before they are written; the other refusals of `lfn_name_valid` do not matter to it.
- Heap.Allocator.Krealloc: a null pointer and size 0, where it is `kmalloc` and `kfree`; bytes that look like the header of a block in use, where no block starts, as for `Heap.Allocator.Kfree`.
- Heap.Allocator.Kfree: memory that is no header is only told apart from one; bytes that look like the header of a block in use, where no block starts, are left out, because the links they would hold are arbitrary.
- CMOS reading, the century rule and BCD conversion of the clock driver.
