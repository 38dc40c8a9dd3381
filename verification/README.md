# A verified model of the DeanOS kernel

DeanOS is a small operating system for 32-bit x86. This project models the parts of its kernel
in which a mistake would be worst and hardest to see, and proves what they promise for every
input, every state and every run:

- **Virtual memory** (`Vm*.dfy`, `Clock.dfy`, `FrameTable.dfy`; `kernel/paging.c`, `kernel/pmm.c`):
  copy-on-write fork, swapping, lazy pages and the frame allocator as one state machine over page
  table entries, frames, counts and swap slots. The central results are that address spaces are
  isolated over every run and that every reference count is exact in every state.
- **Block cache and request queue** (`WriteBack.dfy`, `BlockCache.dfy`, `BlockRuns.dfy`,
  `BlockQueue.dfy`; `kernel/blockdev.c`, `kernel/mbr.c`): the write-back cache behaves like plain
  arrays of blocks; requests are executed and completed in order, once each.
- **minfs** (`Minfs*.dfy`; `kernel/minfs.c`): the marker protocol over a cache that may write any
  sector back at any time. Every disk a crash can leave is safe; after recovery the files that
  were not being worked on are what they were, although a record of 592 bytes may be torn. Over
  whole lives of operations, power failures and mounts, files that no operation names keep every byte
  and every node in use is reached from the root.
- **Kernel heap** (`Heap*.dfy`, `KernelHeap.dfy`; `kernel/kheap.c`): boundary tags and the free
  list in the heap's own words, against a row of blocks.
- **FAT32** (`FatChains.dfy`, `Fat32.dfy`; `kernel/fat32.c`): cluster chains and file contents.
- **mmap regions, scheduler** (`MmapRegions.dfy`, `Scheduler.dfy`; `kernel/task.c`), **lazy ELF
  loading** (`ElfLazy.dfy`; `kernel/elf.c`, `kernel/paging.c`), **path normalisation**
  (`VfsPath.dfy`; `kernel/vfs.c`) and **calendar arithmetic** (`Calendar.dfy`; `kernel/rtc.c`).

`dafny verify dfyconfig.toml` checks the whole project.

## How to read it

Where the source changes objects in place, the model has a class with the same fields, and each
method is proved against a function or relation on values; the theorems are about those. Sizes
that the source fixes (frames, swap slots, cache entries, tasks, nodes) are parameters. 32-bit and
16-bit arithmetic is written out where it can wrap around or saturate.

Eleven promises turned out not to hold in general. In each case the model does what the code does,
a lemma or contract says exactly when the promise holds, and another shows an input for which it does not:

- `paging_map_user` over a swapped entry loses the slot (`VmKernel.Kernel.OverwriteExact`,
  `VmKernel.Kernel.LostSlot`).
- The DIRTY marker of minfs is not cleared by the operations after one that failed under it
  (`MinfsRuns.MarkerSticks`, `MinfsRuns.FullDiskSticks`).
- Creating a file in a record with stale block numbers can, after a second crash, take a block
  away from a later file (`MinfsStale.CreateFramingExact`, `MinfsStale.StaleExample`).
- Creating a name that exists makes a twin if memory runs out while it is looked up
  (`MinfsNames.Create`, `MinfsNames.TwinExample`).
- A write that leaves whole new blocks untouched does not clear them
  (`MinfsContents.ReadAfterWrite`, `MinfsContents.NoGap`, `MinfsContents.GapShows`).
- Formatting never ends on devices of certain sizes (`MinfsLayout.LayoutExact`,
  `MinfsLayout.EndlessExample`).
- `kmalloc` of nearly 4 GiB wraps around (`HeapBlocks.TotalExact`, `HeapBlocks.TotalWraps`).
- A program header whose offset plus file size passes 2^32 is accepted and can be read from outside
  the image; exactly when, `ElfLazy.CopiesInside` says (`ElfLazy.StrayExample`).
- Zeros of a segment do not clear file bytes of an earlier one that it overlaps
  (`ElfLazy.LazyIsEager`, `ElfLazy.ShadowExample`).
- An absolute path of 256 characters or more is cut and walked without an error
  (`VfsPath.WalksWhole`, `VfsPath.CutExample`).
- A write for which a FAT32 volume has no room gives a file without clusters one, if one is free,
  without telling its directory entry; unlinking it then frees nothing (`Fat32.Volume.Write`,
  `Fat32.Volume.Unlink`, `Fat32.LostCluster`).

A smaller point: a chain of more than 100000 clusters is freed only up to there
(`Fat32.Volume.Release`).

Where comments and code differ the model follows the code: the header of `kernel/fat32.c` calls the
driver read-only, but it writes; that of `kernel/kheap.c` speaks of a singly linked list, which is
doubly linked.

Assumptions of the model:

- Virtual memory: kernel entries are atomic steps; reading and writing the swap device succeeds;
  runs of whole entries do not give up the kernel's own reference to its space; the page directory
  entries of users are not those of the kernel; there are at most 2^20 swap slots.
- minfs and FAT32: device calls succeed. The block cache is modelled with drivers that may fail.
- minfs: a path has been resolved to a node; offset plus size of a write does not wrap around.
- FAT32: one vnode per open file; every cluster number of the table has its sectors, and there
  are at most 0x0FFFFFF7 of them; allocation of buffers succeeds.
- Block layer: every partition has been recorded by the scan of partition tables, which has room for 16;
  a driver call that fails has changed nothing.
- Request queue: completion callbacks do not call back into the queue.
- mmap: opening the file again for the upper half of a split region succeeds.

## Model

| member | source | states |
|---|---|---|
| `FrameTable.CallsKeepFramesOk` | kernel/pmm.c:150-190 | Whatever frame is allocated, freed, referenced or unreferenced, the bit, the 16-bit count and the counter of free frames still agree: a bit is set exactly if the count is not zero, and the counter is the number of clear bits. |
| `FrameTable.CountsDetermine` | kernel/pmm.c:150-196 | Bits and counter are determined by the counts, so two consistent allocators with equal counts are equal. |
| `FrameTable.CountFalsePositive` | kernel/pmm.c:150-161 | The counter of free frames is positive exactly if some bit is clear, so allocation fails only when memory is full. |
| `VmKernel.Kernel.constructor` | kernel/paging.c:919-957 | The state that booting builds: the kernel frames and its page directory taken, everything else free. |
| `VmKernel.Kernel.Boot` | kernel/paging.c:919-1012 | Booting gives a state that satisfies the whole invariant, with no user page in any space; the kernel's own space is listed and current. |
| `VmKernel.Kernel.AllocFrame` | kernel/pmm.c:150-161 | The lowest free frame, with count 1; 0 exactly if every bit is set, and then nothing changes. |
| `VmKernel.Kernel.PhysFree` | kernel/pmm.c:163-171 | Clears the bit and the count of a frame, and counts it free only if it was not. |
| `VmKernel.Kernel.FrameRef` | kernel/pmm.c:173-178 | Adds a reference to a used frame, stopping at 65535. |
| `VmKernel.Kernel.FrameUnref` | kernel/pmm.c:180-190 | Drops a reference; the last one frees the frame. |
| `VmKernel.Kernel.SwapAllocSlot` | kernel/paging.c:131-141 | The lowest swap slot without owners, now with one; fails exactly if every slot has an owner. |
| `VmKernel.Kernel.SwapSlotRef` | kernel/paging.c:143-151 | One more owner of a slot; slots_used counts the slots with owners. |
| `VmKernel.Kernel.SwapSlotUnref` | kernel/paging.c:153-162 | One owner less; the last one gives the slot back. |
| `VmState.NoSaturation` | kernel/paging.c:143-151 | While some space lacks the page, the 16-bit counts of a shared frame or slot are strictly below their limit, so fork never meets the saturating branch. |
| `VmState.AccountsDetermined` | kernel/paging.c:131-162 | The structure (directories, tables, which entry names what) determines every count, bit and counter. |
| `Clock.SweptAll` | kernel/paging.c:292-348 | A full sweep visits exactly the candidates: present, user, not copy-on-write, count 1, in a listed space other than the kernel's. |
| `Clock.SlotSwept` | kernel/paging.c:300-345 | Sweeping one more directory, up to where it stops, extends the sweep in the order of the hands by exactly the evictable pages seen there. |
| `VmKernel.Kernel.ScanMm` | kernel/paging.c:309-344 | One round over a directory: stops at the first evictable page that its accessed bit does not save, and clears the accessed bits of exactly the evictable pages before it. |
| `VmKernel.Kernel.FindSwapVictim` | kernel/paging.c:292-348 | The clock search is total: it takes the first unsaved candidate in the order of the hands, ages exactly the candidates before it, and moves the hands behind it; if it finds none it has visited all of them. |
| `VmKernel.Kernel.PickVictim` | kernel/paging.c:350-356 | After at most two passes a victim is found exactly if there is a candidate at all; only accessed bits have changed. |
| `VmSweep.SweepExhausted` | kernel/paging.c:292-348 | A sweep without second chances that finds nothing proves that there is no candidate. |
| `VmKernel.Kernel.SwapPageOutOne` | kernel/paging.c:350-372 | Succeeds exactly if swapping is on, some slot has no owner, and some page of a listed space other than the kernel's is private and the only page of its frame; frees one frame; no program sees a difference. |
| `VmKernel.Kernel.CandidateMeans` | kernel/paging.c:309-344 | The pages that the clock looks at are exactly the present ones that are not shared: private, and alone in their frame. |
| `VmOps.PageOutView` | kernel/paging.c:358-371 | Moving a page from its frame to a slot changes the view of no space. |
| `VmOps.PageOutKeeps` | kernel/paging.c:358-371 | Paging out keeps every count exact: the frame is free, the slot has one owner. |
| `VmKernel.Kernel.AllocFrameForPaging` | kernel/paging.c:374-381 | A frame, if need be by paging one out; 0 exactly if there is neither a free frame nor a way to page out. |
| `VmKernel.Kernel.HandleSwapFault` | kernel/paging.c:383-419 | Brings a swapped page back with the same contents and permission; fails exactly if memory is exhausted; does nothing for any other page. |
| `VmOps.PageInKeeps` | kernel/paging.c:399-418 | Paging in keeps all counts exact and, because a slot may still have other owners, the contents seen through every other entry. |
| `VmKernel.Kernel.EnsureTable` | kernel/paging.c:179-187 | Makes a missing page table from a free frame; fails exactly if it is missing and no frame is free. |
| `VmKernel.Kernel.HandleLazyFault` | kernel/paging.c:449-586 | First touch of an ELF or mmap page whose region supplies `fill`: exactly that page appears, with those bytes and that permission; without room nothing changes and the frame is given back. |
| `VmKernel.Kernel.HandleCowFault` | kernel/paging.c:588-628 | A write to a shared page: if no other page is in the frame the entry becomes writable and nothing else changes, otherwise the page moves to another frame; the view of every space stays the same. |
| `VmOps.CowCopyKeeps` | kernel/paging.c:613-627 | The copy keeps the invariant: the new frame has one reference, the shared one a reference less. |
| `VmOps.CowReclaimKeeps` | kernel/paging.c:603-611 | Making the last shared page writable keeps the invariant that a writable private entry is the only reference to its frame. |
| `VmKernel.Kernel.PageFault` | kernel/paging.c:630-648 | Handles a fault exactly when the swap, ELF, mmap or copy-on-write handler can. A page that was not there gets the bytes and the permission of its ELF region, or else of its mmap region; every page that was there reads as before, also one in swap that cannot be read back. |
| `VmKernel.Kernel.UserStore` | kernel/paging.c:588-648 | A store with all the faults it takes changes that byte of that page and no other byte of any page of any space, and only if the page may be written; exactly when it goes through, and what a store that does not go through leaves. |
| `VmKernel.Kernel.StorableMeans` | kernel/paging.c:588-648 | A store to a page that a space has goes through only if the page may be written, and then always unless memory is exhausted; one to an empty page goes by the permission of its ELF region, or else of its mmap region. |
| `VmSpaces.AddressPage` | kernel/paging.c:189-199 | How a 32-bit address is taken apart: the directory entry is its upper ten bits, the table entry the next ten, and together with the lower twelve they are the address. |
| `VmOps.StorePageKeeps` | kernel/paging.c:588-628 | A store through a writable entry reaches no other entry, because that entry is the only reference to the frame. |
| `VmKernel.Kernel.DropEntry` | kernel/paging.c:206-232 | Clears an entry and gives back exactly the frame or slot reference it held. |
| `VmKernel.Kernel.UnmapRange` | kernel/paging.c:771-784 | Exactly the pages of the range disappear from the current space; reports whether there were any. |
| `VmKernel.Kernel.UnmapUserRange` | kernel/paging.c:771-784 | The pages from the first byte to the rounded end disappear from the current space and nothing else; -1, changing nothing, exactly if the size is 0 or the rounded end is not above the start; otherwise 1 or 0, whether there were any. |
| `VmKernel.Kernel.UnmapSpan` | kernel/paging.c:771-775 | Which ranges those are: one ending below the last page of memory is unmapped whole; one that reaches further wraps around in 32 bits and is refused or, if it is almost all of memory, cut to its first page. |
| `VmKernel.Kernel.DestroyMm` | kernel/paging.c:265-290 | Gives back every page, slot, table and the directory of a space; all other spaces and their accounts are as before. |
| `VmKernel.Kernel.CreateMm` | kernel/paging.c:812-829 | A new directory with one reference; -3 exactly if there is no frame, -4 exactly if there is one but no slot in the table of spaces, and then nothing changes. |
| `VmKernel.Kernel.RetainMm` | kernel/paging.c:831-840 | One more user of a space; a directory that no slot lists gets a slot with one reference if one is free; nothing else changes. |
| `VmKernel.Kernel.ReleaseMm` | kernel/paging.c:842-859 | One user less; the last one removes exactly the pages of the space and gives back what it held. Only the last release of the kernel's own space leaves a directory without a slot: that one is never destroyed. |
| `VmOps.SharePageKeeps` | kernel/paging.c:896-907 | Sharing a page in fork: both entries lose the write bit and the count is the number of entries again. |
| `VmOps.ShareSwappedKeeps` | kernel/paging.c:889-895 | Sharing a swapped page in fork: the slot has one more owner. |
| `VmKernel.Kernel.Fork` | kernel/paging.c:861-917 | Succeeds exactly if there are frames for the directory and for each of the parent's tables and a free slot; the codes for either failure. The child then has a copy of every page of the parent, and nobody else sees a change; a fork that runs out of frames half way leaves every account and view as before. |
| `VmSpaces.ForkIsCopy` | kernel/paging.c:861-917 | The copying loop gives the child exactly the parent's pages and no other page changes. |
| `VmSpaces.PartialCopyUndone` | kernel/paging.c:872-909 | Releasing a half-made child removes everything the copying loop had added. |
| `VmKernel.Kernel.UndoFork` | kernel/paging.c:877-881 | After the cleanup of a failed fork all counts, bits and counters are the old ones. |
| `VmKernel.Kernel.SwitchMm` | kernel/paging.c:804-810 | Only the current space changes; 0 is ignored. |
| `VmKernel.Kernel.MapUser` | kernel/paging.c:749-769 | Where no page is present, a writable page of 4096 zeros; a page that is present stays. The three codes are determined by the state before: -1 without table and frame, -2 without room for the page after its table, otherwise 0. All accounts stay exact if and only if the page was not a swapped one, or there was no room. |
| `VmKernel.Kernel.OverwriteExact` | kernel/paging.c:749-769 | Mapping over an entry keeps the slot accounts right if and only if there is no swapped entry: paging_map_user tests only the present bit. |
| `VmKernel.Kernel.LostSlot` | kernel/paging.c:757-763 | A machine of four frames with one page in swap, all accounts exact: mapping over that page leaves the slot with a count of 1 and no owner. |
| `VmRuns.OthersUntouched` | kernel/paging.c:630-917 | An event of one space leaves every other space as it was. |
| `VmRuns.Isolation` | kernel/paging.c:630-917 | Over every run, what a space holds is computed from its own events and, before its fork, its parent's; events of other spaces, paging and copying do not matter. |
| `VmRuns.SnapshotFork` | kernel/paging.c:861-917 | A forked child keeps the parent's pages of the moment of the fork until it acts itself, whatever happens elsewhere. |
| `VmSystem.Do` | kernel/paging.c:630-917 | Each kernel entry is exactly one event, which the state it is made in determines: the page a store, a first touch or a mapping leaves and when there is none, the new space or the fork if there is room for it, the pages unmapped, the space ended. It is an event of the space that made the entry, of a space that did not exist, or of the space released. |
| `VmSystem.ActsForOwner` | kernel/paging.c:630-917 | An entry can act only for the space that made it, for a space that did not exist before, or for a space being released. |
| `VmSystem.StaysListed` | kernel/paging.c:812-859 | A space, forked or new, exists from then on until it is released. |
| `VmSystem.Exec` | kernel/paging.c:630-917 | For every sequence of stores, touches, mappings, new spaces, forks, unmaps, retains, releases, switches and page-outs: all accounts are exact in every state, each entry is the event of the space running at that moment that Do states, the spaces that exist are those made and not yet ended, every space holds what its lineage put there, and each step leaves every existing space alone but the one that made the entry and the one released. |
| `VmSystem.Undisturbed` | kernel/paging.c:630-917 | Over every stretch of every run in which a space makes no entry and is not released, its pages stay exactly as they were. |
| `VmSystem.ByteKept` | kernel/paging.c:630-917 | Over every stretch of every run, a byte of a page stays what it is until its own space stores into that byte, maps or unmaps the page, or is released: paging out and in, forks and everything other spaces do leave it alone. |
| `VmSystem.ZeroUntilStored` | kernel/paging.c:749-769 | Each of the 4096 bytes of a page that paging_map_user mapped reads 0, in every later state of every run, until its own space stores into it. |
| `VmSystem.StoredReads` | kernel/paging.c:588-648 | A byte that a program stored reads so, in every later state of every run, until the next store into it. |
| `VmSystem.BootAndRun` | kernel/paging.c:919-1012 | Booting leads into every such run, and at its start no space has a page: at the end every page of every space comes from its lineage of events. |
| `WriteBack.LogIsPuts` | kernel/blockdev.c:182-259 | Whatever blocks are copied to the disk meanwhile, readers see the plain array after the writes. |
| `WriteBack.CrashValues` | kernel/blockdev.c:133-148 | After a crash each block of the disk holds what it held at the start, what readers saw then, or some value written since. |
| `WriteBack.Unwritten` | kernel/blockdev.c:133-148 | A block that is not written keeps what readers see, and the disk can only change to that. |
| `BlockCache.Cache.constructor` | kernel/blockdev.c:340-355 | An empty cache agrees with the disks. |
| `BlockCache.Cache.Find` | kernel/blockdev.c:124-131 | The entry for a block if there is one, and only then. |
| `BlockCache.Cache.Writeback` | kernel/blockdev.c:133-148 | Writes a dirty entry to its device and counts it; if the driver fails nothing changes; an entry that is empty or clean is left alone, without a driver call. |
| `BlockCache.Cache.GetSlot` | kernel/blockdev.c:150-166 | The first empty slot, if there is one, and then nothing changes. Otherwise the first slot from the hand on that is not referenced, or, if all are, the one at the hand; the slots passed, and no others, are no longer referenced; the hand is behind the victim; one more eviction. It ends after at most one step more than there are entries. |
| `BlockCache.Cache.ReadOne` | kernel/blockdev.c:195-216 | One block as last written; it then has an entry, marked as referenced; a block that has one is read without a driver call. |
| `BlockCache.Cache.WriteOne` | kernel/blockdev.c:235-256 | One block written into the cache, where its entry is then dirty and referenced, or nothing if no room could be made; a block that has an entry is written without a driver call. |
| `BlockCache.Cache.ReadWhole` | kernel/blockdev.c:182-219 | -1 for a number that is no device or a count of 0, -2 without a read function, -3 if the first block is outside the device, -4 if the last is, each stated from the device; otherwise all blocks as last written, also for devices that are not cached; then it fails only if a driver call failed. |
| `BlockCache.Cache.WriteWhole` | kernel/blockdev.c:221-259 | -1 for a number that is no device or no blocks, -2 without a write function, -3 for a read-only device, -4 and -5 for a range outside it, each stated from the device; otherwise the blocks are written in order, all of them unless a driver call failed. |
| `BlockCache.Cache.Read` | kernel/mbr.c:35-39 | The same codes for any device; a read of a partition gives the blocks of the parent device from the start of the partition on. |
| `BlockCache.Cache.Write` | kernel/mbr.c:41-45 | The same codes for any device; a write to a partition writes the blocks of the parent device from the start of the partition on. |
| `BlockCache.Cache.Flush` | kernel/blockdev.c:261-282 | After a successful flush every block of the device, or of the partition's window, is on the disk as readers see it; blocks of other devices stay as they are on the disk. |
| `BlockCache.Cache.FlushAll` | kernel/blockdev.c:457-467 | After a successful flush of everything the disks are what readers see. |
| `BlockRuns.Run` | kernel/blockdev.c:182-282 | For every sequence of reads, writes and flushes each answer is the one that plain arrays of blocks would give after the writes before it, and after a successful flush the disk has the device's blocks as these arrays have them. Calls fail only if a driver call failed. |
| `BlockRuns.ReadsLastWrite` | kernel/blockdev.c:182-259 | Over every run of reads, writes and flushes, a block that is read is the one that the last successful write to cover it put there, through whatever partitions the two went. |
| `BlockRuns.ReadsFirst` | kernel/blockdev.c:182-219 | A block that no write covered before is read as it was on the disk at the start. |
| `BlockRuns.FlushLasts` | kernel/blockdev.c:259-281 | What a successful flush found stays on the disk, whenever the run is cut off, until the block is written again. |
| `BlockRuns.Serve` | kernel/blockdev.c:182-282 | One call, of any kind, is answered from the plain arrays; what a successful flush leaves on the disk. |
| `BlockQueue.Ring.Push` | kernel/blockdev.c:55-63 | Appends to the queue unless it is full. |
| `BlockQueue.Ring.Pop` | kernel/blockdev.c:65-73 | Takes the oldest element unless the queue is empty. |
| `BlockQueue.Queue.Submit` | kernel/blockdev.c:412-419 | -2 to -9, each if and only if: no such device, no blocks, a first or a last block outside the device, no read or write function, a read-only device, an unknown operation, a full queue. Otherwise, and only then, the request is accepted and goes to the end of the queue. |
| `BlockQueue.Queue.PumpOne` | kernel/blockdev.c:426-446 | The oldest pending request is executed and its completion delivered, once, with its own status. |
| `BlockQueue.Queue.Dispatch` | kernel/blockdev.c:298-309 | Delivers the oldest completion and writes its status to its waiter. |
| `BlockQueue.Queue.Pump` | kernel/blockdev.c:421-447 | Executes requests in the order of submission; the requests accepted are always those delivered followed by those pending, and async_pending is the difference of their numbers. The completion queue is empty between calls and so is never full. |
| `BlockQueue.Queue.SubmitAndWait` | kernel/blockdev.c:319-332 | Always ends, with the status with which its own request was executed, after every request submitted before it. |
| `MinfsTable.RecoversClosed` | kernel/minfs.c:192-238 | Recovery in closed form: what each word of the node table becomes. |
| `MinfsTable.WordBytes` | kernel/minfs.c:41-50 | The first word of a record by its bytes: used, then the type, with one bit for files and the next for directories. |
| `MinfsTable.RecoveryConsistent` | kernel/minfs.c:192-222 | From an arbitrary table, recovery gives one in which every reference is a marked block and no block is referenced twice. |
| `MinfsTable.RecoveryMarks` | kernel/minfs.c:192-222 | The rebuilt bitmap marks exactly the blocks that file nodes keep. |
| `MinfsTable.RecoveredSizes` | kernel/minfs.c:207-216 | After recovery a file's block count is the number of its references that name a data block no earlier reference names, its size is cut to that many times 512, those references stay and all others are gone. |
| `MinfsTable.ChildrenAre` | kernel/minfs.c:401-408 | The number that minfs counts for a directory is the cardinality of the set of used records that name it as their parent, files and directories alike. |
| `MinfsTable.NoChildren` | kernel/minfs.c:698 | It is zero exactly if there is no such record. |
| `MinfsTable.RecoveryKeepsNode` | kernel/minfs.c:192-222 | A node whose counts are right and whose references all survive keeps its record (a directory: all but its size). |
| `MinfsTable.RecoveryIdempotent` | kernel/minfs.c:192-238 | A second recovery changes nothing. |
| `MinfsTable.RecoveryRestarts` | kernel/minfs.c:224-238 | A crash in the middle of recovery is harmless: any mixture of old and recovered words recovers to the same table. |
| `MinfsDisk.MixedSafe` | kernel/blockdev.c:133-148 | If two disks with a marker agree on a consistent table and bitmap, every block-wise mixture of them is safe. |
| `MinfsFs.Minfs.Evict` | kernel/blockdev.c:133-166 | The cache may write any block back at any time; every disk this can leave is safe, and is recorded in a history in which at most one sector changes from one disk to the next. |
| `MinfsFs.Minfs.Flush` | kernel/blockdev.c:261-282 | After the flush the disk is what readers see; every disk on the way is safe and recorded. |
| `MinfsFs.Minfs.TxBegin` | kernel/minfs.c:172-181 | The DIRTY marker, with the next sequence number, is on the disk before anything else can be; if it is there already nothing is written. |
| `MinfsFs.Minfs.TxEnd` | kernel/minfs.c:183-190 | The CLEAN marker is written only when table and bitmap on the disk agree with memory, and is on the disk afterwards. |
| `MinfsFs.Minfs.FlushNodes` | kernel/minfs.c:254-265 | Afterwards the whole table is in the cache; bitmap and data blocks stay as they are. |
| `MinfsFs.Minfs.FlushNode` | kernel/minfs.c:267-294 | Writes the sectors over which a record of 592 bytes lies: afterwards that record is in the cache and every other word is as it was or as in memory; bitmap and data blocks stay as they are. |
| `MinfsFs.Minfs.FlushBitmap` | kernel/minfs.c:296-315 | Writes the bitmap sectors marked dirty; afterwards the whole bitmap is in the cache. |
| `MinfsFs.Minfs.AllocBlock` | kernel/minfs.c:346-356 | The lowest unmarked data block, now marked; fails exactly if there is none. |
| `MinfsFs.FreeBlocksAre` | kernel/minfs.c:346-356 | The free blocks that the statements about writing count are the unmarked ones. |
| `MinfsFs.Minfs.BlocksLeast` | kernel/minfs.c:324-327 | A size takes the least number of blocks of 512 bytes that hold it. |
| `MinfsFs.Minfs.ReleaseBlocks` | kernel/minfs.c:363-374 | Unmarks exactly the blocks of the file and empties its record. |
| `MinfsFs.Minfs.EnsureBlocks` | kernel/minfs.c:376-399 | Grows a file by unmarked blocks only; succeeds exactly if there are enough; otherwise gives back what it took. |
| `MinfsFs.Minfs.WriteBlocks` | kernel/minfs.c:554-579 | The copy loop: the bytes are in place, bytes around them in old blocks are kept, new blocks are zero around them; stops at a hole. |
| `MinfsFs.Minfs.Write` | kernel/minfs.c:523-596 | Succeeds exactly if the offset is below 65536, enough blocks are unmarked and the file has no hole where the bytes go; it then stores all the bytes that end by 65536. Bytes, size, block count and the number of free blocks after it, and what a failed write leaves. The marker is set afterwards if and only if it was before or a growing write failed. Every disk that a crash can find on the way is safe and keeps the words of all other records, from a clean and from a dirty start. |
| `MinfsFs.Minfs.Read` | kernel/minfs.c:491-521 | The bytes up to the end of the file, zeros where it has no block. |
| `MinfsContents.ByteAfterWrite` | kernel/minfs.c:523-596 | Byte by byte, what reading gives after a write. |
| `MinfsContents.ReadAfterWrite` | kernel/minfs.c:491-596 | Reading back gives the bytes written. All other bytes read as before if the write starts in a block the file has or right behind its last one; otherwise if and only if the blocks added without being written to held zeros: minfs_write does not clear them. |
| `MinfsContents.NoGap` | kernel/minfs.c:523-547 | There are no such blocks exactly if the write starts in a block the file has or right behind its last one. |
| `MinfsContents.GapShows` | kernel/minfs.c:523-596 | One byte stored at 512 in an empty file makes the 512 bytes before it read as what the free block held. |
| `MinfsContents.WriteThenRead` | kernel/minfs.c:491-596 | A write followed by a read of the same range returns exactly the bytes the write accepted; a write that adjoins the file changes no other byte. |
| `MinfsFs.Minfs.Truncate` | kernel/minfs.c:598-616 | Empties the file, unmarks its blocks, crash-safely, from a clean and from a dirty start. |
| `MinfsFs.Minfs.Create` | kernel/minfs.c:661-686 | Once the name is known to be new: succeeds exactly if a record is free and a vnode can be made. The first free record becomes a file or a directory with the given parent and name, no blocks and, for a file, no bytes; directory sizes are the numbers of children. Crash-safe. The marker is set afterwards if and only if it was before or there was a record but no vnode. |
| `MinfsFs.Minfs.Unlink` | kernel/minfs.c:694-719 | Once the node is found: refuses exactly the root and a directory that some used record names as its parent; otherwise clears the record and unmarks exactly its blocks. Crash-safe, from a clean and from a dirty start. |
| `MinfsNames.PackRound` | kernel/minfs.c:672-674 | A name copied into a record is read back from it. |
| `MinfsNames.CStrIs` | kernel/minfs.c:467-478 | The string in a name field: its bytes up to the first zero or to the 64th. |
| `MinfsNames.FindChild` | kernel/minfs.c:467-478 | The first used record whose parent is the directory and whose name field holds that string. |
| `MinfsNames.Create` | kernel/minfs.c:653-686 | Create by directory and name: exactly when it succeeds. A new name then leads to the new node and every other lookup gives what it gave. Unique names stay unique if and only if the create did not succeed with a name that existed, which takes a lookup that ran out of memory. |
| `MinfsNames.TwinExample` | kernel/minfs.c:474-475 | On a freshly formatted file system: the same name created twice, the second time without memory for the lookup. |
| `MinfsNames.Unlink` | kernel/minfs.c:688-719 | Unlink by directory and name: it succeeds exactly if the name is found and is not a directory that some used record names as its parent. If names are unique, the name then leads nowhere and every other lookup gives what it gave. |
| `MinfsFs.Minfs.CountChildren` | kernel/minfs.c:401-408 | The cardinality of the set of used records with that parent. |
| `MinfsFs.Minfs.RefreshDirs` | kernel/minfs.c:436-446 | The size of each directory becomes the cardinality of the set of used records with that parent; no other word changes. |
| `MinfsFs.Minfs.FindFreeIndex` | kernel/minfs.c:459-465 | The lowest unused record but the root; fails exactly if there is none. |
| `MinfsFs.Minfs.Rebuild` | kernel/minfs.c:192-222 | Rebuilds the table and the bitmap as the closed form says, from any table. |
| `MinfsFs.Minfs.Recover` | kernel/minfs.c:224-238 | Recovery writes everything and only then the CLEAN marker; a crash anywhere in it leaves a disk from which the next recovery gives the same table. |
| `MinfsFs.Minfs.Mount` | kernel/minfs.c:840-861 | Mounting any safe disk with a root, clean or dirty, gives a consistent file system marked clean, with the recovered table, the same data and the sequence number of the disk; without a root it fails with -13. A crash on the way leaves a safe disk from which another mount comes to the same table. |
| `MinfsCrash.FilesNotStale` | kernel/minfs.c:523-616 | A file names only blocks of its own, in memory and in the cache, so write, truncate and unlink meet the condition of crash framing. |
| `MinfsCrash.ApartFlushed` | kernel/minfs.c:254-294 | When memory and cache differ after a failed operation, writing one record through keeps them apart: what the cache claims for one file no other file in memory has. |
| `MinfsCrash.ApartUnflushed` | kernel/minfs.c:523-564 | The same when a record changes in memory only, as in a write or create that fails under the marker. |
| `MinfsCrash.CrashFraming` | kernel/minfs.c:192-294 | If a crash interrupts an operation on one node, from whatever state the operation started, recovery gives every other well-counted node that cache and memory agreed on its whole record back (a directory: all but its size), torn records included. From a clean start that is every node. |
| `MinfsCrash.MountAfterCrash` | kernel/minfs.c:192-294 | The same for the whole reboot, whether or not the marker had reached the disk, and with the contents of all blocks of those nodes. |
| `MinfsCrash.NormalWellCounted` | kernel/minfs.c:376-399 | Files as minfs itself makes them, with blocks at the front and none behind, are well counted. |
| `MinfsRuns.Perform` | kernel/minfs.c:523-719 | Any one operation: what it does to its own node, bitmap and cache, that all other nodes stay the same, what every disk on the way keeps, and that the marker is set afterwards if and only if it was before or the operation failed under it. |
| `MinfsRuns.MarkerSticks` | kernel/minfs.c:172-190 | Over every life the marker is set at the end if and only if it was at the start, or some operation failed under it, and there was no mount since; successes in between do not clear it. |
| `MinfsRuns.FullDiskSticks` | kernel/minfs.c:549-550 | A one-byte write on a full device is such an operation. |
| `MinfsRuns.CutMount` | kernel/minfs.c:840-861 | A mount cut short after any number of sectors leaves the disk at that point of a complete history, from which the machine can start again, with each word as it was or as recovery makes it. |
| `MinfsRuns.Fail` | kernel/minfs.c:523-719 | The disk that a power failure finds: the one after that many sectors of the operation were written, from none to all, in the complete history of the disk. |
| `MinfsRuns.Reboot` | kernel/minfs.c:840-861 | Starting from any disk a crash may leave, with mounts that may themselves be cut short anywhere: the last mount finds the root, each word of its table is the one on that disk or what recovery makes of it, and the data is untouched. |
| `MinfsRuns.Run` | kernel/minfs.c:523-861 | Any operations in any order, with power failures at any moment of any of them and of the mounts that follow: every state in between is consistent, has its root and keeps cache and memory apart, and each leads to the next by its operation, or by mounting a disk that the operation can leave. |
| `MinfsRuns.FileLivesOn` | kernel/minfs.c:523-861 | Over every such life a file in order keeps its record and every byte, in the cache and on the disk, if no operation changes it or brings a record with its block numbers back to life. |
| `MinfsRuns.OverwritesSpare` | kernel/minfs.c:523-616 | In terms of the operations alone: writing and truncating other files, with any power failures, never costs it a byte. |
| `MinfsRuns.OthersLiveOn` | kernel/minfs.c:523-861 | The same for all operations, from a table in which only files have block numbers: any writes, truncations, creates and unlinks of other nodes with any power failures, as long as nothing is created after an unlink was cut short. |
| `MinfsRuns.TidyOn` | kernel/minfs.c:653-719 | Only files have block numbers, after every step; an unlink that was cut short may leave some in a record not in use. |
| `MinfsRuns.FormatTidy` | kernel/minfs.c:764-770 | The table that formatting writes is such a table, with the root and no file. |
| `MinfsTree.DoneTree` | kernel/minfs.c:523-719 | If every used record but the root is in a used directory, nearer to the root, that holds after every operation, successful or not: unlink refuses the directories that have records. |
| `MinfsTree.FoundTree` | kernel/minfs.c:192-294 | And it holds of every disk that a power failure during the operation can leave, although other records may be on it as the cache had them, and the one worked on torn. |
| `MinfsTree.RecoveredTree` | kernel/minfs.c:192-238 | Recovery, cut short or not, keeps it. |
| `MinfsTree.LifeRooted` | kernel/minfs.c:523-861 | Over every life of operations, power failures and mounts in which files are created in directories, in every state: the parent of every used record but the root is a used directory, and the root is reached from every used record by going up. |
| `MinfsTree.FormatRooted` | kernel/minfs.c:764-770 | The table that formatting writes is such a tree. |
| `MinfsStale.CreateFramingExact` | kernel/minfs.c:653-686 | Create is safe for all other nodes in every crash if and only if no stale word of the free record, outside the sector of its first word, names a block of a later file. Recovery does not clean records that are not in use. |
| `MinfsStale.StaleExample` | kernel/minfs.c:192-222 | A consistent table with such a word, and the one-sector crash that costs a file its block. |
| `MinfsStale.CreateMakesFile` | kernel/minfs.c:653-686 | The table that create writes is one of those the statement above is about. |
| `MinfsLayout.LayoutExact` | kernel/minfs.c:728-740 | The sizing loop of format ends exactly on devices of fewer than 151 sectors, which it refuses, and on those whose sectors but 149 are not one more than a multiple of 4097; then within five passes, with a layout that fills the device, a bitmap without a spare sector, and a superblock that mounting accepts. |
| `MinfsLayout.FormattedGeo` | kernel/minfs.c:728-762 | That layout has room for 128 nodes of 592 bytes and a bit for every data block, as the rest of the model requires. |
| `MinfsLayout.FixedPoint` | kernel/minfs.c:728-740 | Which guesses are their own successors. |
| `MinfsLayout.EndlessExample` | kernel/minfs.c:728-740 | A device of 4247 sectors, on which the loop never ends. |
| `KernelHeap.Heap.constructor` | kernel/kheap.c:120-138 | One free block over the whole region. |
| `KernelHeap.Heap.Insert` | kernel/kheap.c:64-75 | The block is now first on the free list; no tag and no payload changes. |
| `KernelHeap.Heap.Unlink` | kernel/kheap.c:77-83 | Exactly this block leaves the list; no tag and no payload changes. |
| `KernelHeap.Heap.FindFit` | kernel/kheap.c:85-95 | The first block on the list that is large enough; none exactly if no free block is. |
| `KernelHeap.Heap.MergeNext` | kernel/kheap.c:97-105 | Merges with the following block exactly if that is free. |
| `KernelHeap.Heap.MergePrev` | kernel/kheap.c:107-115 | Merges with the block before, found through its footer, exactly if that is free. |
| `KernelHeap.Heap.Kmalloc` | kernel/kheap.c:140-185 | Fails exactly for size 0 or if no free block, its two tags taken off, has that many bytes. The block given has them and fewer than 16 more; the first fit is taken and split as Take says; blocks still tile the region with equal headers and footers, no two free ones touch, the list is exactly the free ones, and every live payload is unchanged. Above 2^32 - 16 it fails exactly if nothing is free. |
| `KernelHeap.Heap.Kfree` | kernel/kheap.c:187-206 | The block is released and merged with its free neighbours as Release says; the same invariant; every other live payload is unchanged. |
| `KernelHeap.Heap.Krealloc` | kernel/kheap.c:217-234 | Shrinking leaves the block; growing moves the payload to a block that has the bytes and frees the old one; it fails, changing nothing, exactly if no free block, its tags taken off, has that many bytes; other payloads never change. |
| `KernelHeap.Heap.FreeBytes` | kernel/kheap.c:236-245 | The list adds up to the free part of the region; free and allocated bytes add up to the region. |
| `KernelHeap.Heap.Drain` | kernel/kheap.c:187-206 | Freeing all live payloads, in any order, leaves one free block. |
| `HeapBlocks.TakeRelease` | kernel/kheap.c:140-206 | Freeing what was just allocated gives back the very same row of blocks. |
| `HeapBlocks.ReleaseKeeps` | kernel/kheap.c:97-118 | Releasing keeps the tiling and never leaves two free neighbours. |
| `HeapBlocks.TakeMerges` | kernel/kheap.c:158-179 | Allocating never leaves two free neighbours. |
| `HeapBlocks.TakeTiles` | kernel/kheap.c:158-179 | Allocating keeps the tiling. |
| `HeapBlocks.AllFree` | kernel/kheap.c:97-118 | If nothing is in use, the region is one block. |
| `HeapBlocks.ReleaseWords` | kernel/kheap.c:187-206 | Releasing moves exactly the words of the block from used to free. |
| `HeapBlocks.TotalExact` | kernel/kheap.c:144-147 | The block asked for holds the request if and only if the size is at most 2^32 - 16: beyond that the 32-bit sum wraps around. |
| `HeapBlocks.TotalLeast` | kernel/kheap.c:144-147 | The block size computed for a request is the least multiple of 8 that is at least 16 and holds the request and two tags. |
| `HeapBlocks.TakenTight` | kernel/kheap.c:158-179 | The block taken, split or whole, holds the request and wastes fewer than 16 bytes. |
| `HeapBlocks.TotalWraps` | kernel/kheap.c:144-147 | For larger requests it is the smallest block there is. |
| `HeapMemory.ListSum` | kernel/kheap.c:236-245 | A list with exactly the free blocks, each once, adds up to their words. |
| `FatChains.Keep4Parts` | kernel/fat32.c:123-132 | An update of an entry keeps its top four bits. |
| `FatChains.EntryBits` | kernel/fat32.c:123-132 | An entry has 28 bits; setting it changes those and keeps the four above them. |
| `FatChains.FreeUnused` | kernel/fat32.c:134-147 | A free cluster is on no chain. |
| `FatChains.FreeCountIs` | kernel/fat32.c:134-147 | The free clusters that the statements about writing count are those, but the root, whose 28 bits are zero. |
| `FatChains.LinkGrows` | kernel/fat32.c:149-172 | Linking a cluster that is on no chain behind the end of a chain keeps all chains acyclic and disjoint. |
| `FatChains.DropChain` | kernel/fat32.c:204-223 | Without one chain the others are still acyclic and disjoint, and its clusters are on none. |
| `Fat32.Volume.FlushSector` | kernel/fat32.c:108-121 | Every copy of the table has the sector. |
| `Fat32.Volume.SetEntry` | kernel/fat32.c:123-132 | One entry changes, its top four bits do not, and all copies follow; numbers outside the table are refused. |
| `Fat32.Volume.FindFree` | kernel/fat32.c:134-147 | The lowest free cluster that is not the root; 0 exactly if there is none. |
| `Fat32.Volume.Extend` | kernel/fat32.c:149-172 | One free cluster, zeroed, at the end of the chain; fails exactly if none is free, changing nothing. |
| `Fat32.Volume.Release` | kernel/fat32.c:204-223 | Frees exactly the clusters of the chain, at most 100000 of them, and never the root. |
| `Fat32.Volume.Read` | kernel/fat32.c:372-420 | The contents from the offset on, as far as the file goes. |
| `Fat32.Volume.Write` | kernel/fat32.c:422-520 | Succeeds exactly if the chain and the free clusters reach the end of the write; the contents are then the old ones with the bytes in place and the entry is in step; without room it fails, has taken every free cluster, and the size stays; the node then has a first cluster that its entry does not know exactly if it had none and one was free. Growth takes only free clusters, all chains stay acyclic, disjoint and clear of the root, and all other files keep chain and contents. |
| `Fat32.Volume.WriteRead` | kernel/fat32.c:372-520 | After a write that succeeds, reading the same place gives the bytes. |
| `Fat32.Volume.Truncate` | kernel/fat32.c:522-548 | The file is empty; if its chain has at most 100000 clusters all of them are free, otherwise the first 100000; nothing else changes. A directory is left alone. |
| `Fat32.Volume.Unlink` | kernel/fat32.c:784-845 | The entry is gone; if it named a chain of at most 100000 clusters all of them are free, otherwise the first 100000; nothing else changes. A directory is refused. |
| `Fat32.Volume.Create` | kernel/fat32.c:687-782 | Refuses exactly a parent that is no directory or has no cluster, a type other than file, a name that is not a new short name, and a full directory on a full volume. Otherwise there is one more file, empty and without clusters; a full directory gets one more cluster; no other file changes. |
| `Fat32.LostCluster` | kernel/fat32.c:422-520 | On a volume with one free cluster: create, a write of two bytes that fails, unlink. Both calls around the write succeed, no file has the cluster, and none is free. |
| `Fat32.Volume.constructor` | kernel/fat32.c:960-1010 | An empty volume satisfies the invariant; only the root has a cluster. |
| `MmapRegions.MapsOnce` | kernel/task.c:1130-1201 | An address has at most one backing. |
| `MmapRegions.Mmap.AllocSlot` | kernel/task.c:233-239 | The first free slot; fails exactly if there is none. |
| `MmapRegions.Rounding` | kernel/task.c:241-247 | Rounding to pages of 4096 bytes, upwards in 32 bits. |
| `MmapRegions.Mmap.FindGap` | kernel/task.c:249-272 | Ends, with the lowest address at which the length fits; fails only if there is none. |
| `MmapRegions.Mmap.Map` | kernel/task.c:1130-1201 | Succeeds exactly if the length is not 0 in pages, the flags are allowed, what is to be mapped is there (a live segment that has the bytes, or a file, at a page boundary), a slot is free and the place is. The map then gains exactly the new pages, each with the protection asked for, the file, the segment or nothing behind it, and its position; otherwise nothing changes. |
| `MmapRegions.Mmap.Survey` | kernel/task.c:1212-1228 | Whether the range is mapped at all, whether a region must be split, whether a slot is free; at most one region must be split. |
| `MmapRegions.Mmap.Cut` | kernel/task.c:1230-1281 | Every region that meets the range is dropped, trimmed or split, and the pages given back are exactly the mapped ones of the range. |
| `MmapRegions.Mmap.Unmap` | kernel/task.c:1203-1282 | Succeeds exactly under the conditions of the code; the map then loses exactly the pages of the range while every other address keeps object, protection and position; otherwise nothing changes. |
| `MmapRegions.Mmap.MapUnmap` | kernel/task.c:1130-1282 | What was mapped can always be unmapped again, and then every address is backed as before. |
| `MmapRegions.CutMaps` | kernel/task.c:1230-1281 | Front trim, tail trim and split keep the backing of every address outside the range. |
| `Scheduler.Cpu.PickNext` | kernel/task.c:377-395 | The first ready task in scan order, the idle task only if no other is ready, -1 if none is. |
| `Scheduler.Cpu.DoSwitch` | kernel/task.c:563-579 | The old task becomes ready if it was running, and keeps its state otherwise; the new one runs with a full quantum; no other task changes. |
| `Scheduler.Cpu.Tick` | kernel/task.c:930-957 | A tick makes ready exactly the blocked tasks whose time has come or whose event is there; no task becomes blocked or dead, and one that could run still can. It then counts the slice down, or gives the processor to a ready task with a full slice. |
| `Scheduler.TickLosesNobody` | kernel/task.c:930-957 | Over a tick, every task that is ready or running stays ready or is the one that runs; blocked and dead ones stay as they are; the task chosen was ready and has its whole quantum left. |
| `Scheduler.Cpu.WakeBlocked` | kernel/task.c:533-561 | Exactly those tasks become ready. |
| `Scheduler.Cpu.Sleep` | kernel/task.c:877-888 | The current task, unless it is the idle task, is blocked until that many ticks from now. |
| `Scheduler.TickOk` | kernel/task.c:930-957 | At most one task is running and it is the current one. |
| `Scheduler.PickUnique` | kernel/task.c:377-395 | The choice is determined. |
| `Scheduler.DecisionCloser` | kernel/task.c:377-395 | Each decision runs a waiting task or brings the scan strictly closer to it; idle is not chosen meanwhile. |
| `Scheduler.FewDecisions` | kernel/task.c:377-395 | In every run a task that stays ready is picked by the (n - 1)st decision at the latest, with n tasks. |
| `Scheduler.BoundedWaiting` | kernel/task.c:930-957 | In every run in which other tasks block, wake and die as they like, a task that stays ready runs within (n - 1) times the largest quantum ticks. |
| `Scheduler.RunsAgain` | kernel/task.c:930-957 | In every run, a task that never blocks has the processor again within (n - 1) times the largest quantum ticks of losing it. |
| `Scheduler.FullSlice` | kernel/task.c:930-957 | A task that does not block keeps the processor, tick by tick, for the whole of its slice. |
| `Scheduler.SleeperRuns` | kernel/task.c:930-957 | A task that sleeps until some tick runs within (n - 1) times the largest quantum ticks of it. |
| `ElfLazy.Collect` | kernel/elf.c:57-91 | The regions made from the headers that are to be loaded and have memory, or the code of the first header at which something is wrong: -2 outside the image, -3 more file bytes than memory, -4 file bytes beyond the image, -5 no region left. |
| `ElfLazy.NoRegion` | kernel/elf.c:69 | A header that is not to be loaded, or has no memory, gives no region, wherever it stands. |
| `ElfLazy.FillPage` | kernel/paging.c:449-507 | For any regions: the bytes and the permission of one page; 0 if no region has it, -1 exactly if the image is too short; and exactly when a copy leaves the image in spite of the check. |
| `ElfLazy.CopiesInside` | kernel/elf.c:71 | For a header that the collector accepts, every copy stays inside the image if and only if offset plus file size is below 2^32, or the addresses wrap around as well and leave no page on which that sum does: the check compares the sum after it has wrapped around. |
| `ElfLazy.StrayExample` | kernel/paging.c:487-491 | A header accepted with an image of two pages, whose first page is copied from 4 GiB - 4096. |
| `ElfLazy.PagesExact` | kernel/elf.c:74-76 | A region has exactly the pages of its segment if and only if the end of the segment, rounded up, is below 2^32. |
| `ElfLazy.RegionsBacked` | kernel/paging.c:487-491 | For regions that the collector made, from segments that do not wrap around, that check never fails. |
| `ElfLazy.LazyIsEager` | kernel/paging.c:475-493 | If the segments do not wrap around, a byte of a page filled on demand is the byte that loading all segments up front would have put there if and only if no earlier segment has a file byte other than zero where the last one has zeros: those do not clear it. |
| `ElfLazy.ShadowExample` | kernel/paging.c:475-493 | Two accepted segments at one address for which the two differ. |
| `ElfLazy.PageOfSegment` | kernel/paging.c:456-465 | For segments that do not wrap around, the pages that come in are those of loaded segments, and those that may be written are those of writable ones, also where two segments share a page. |
| `ElfLazy.Touch` | kernel/paging.c:449-507 | For segments without such bytes, touching pages in any order, with repeats, gives the memory of loading up front on every page touched. |
| `VfsPath.Normalize` | kernel/vfs.c:160-227 | The result is the walk over the components of the working directory and the path on a stack, rendered; fails exactly where the walk does. |
| `VfsPath.WalkFails` | kernel/vfs.c:188-219 | A walk fails exactly if one of its names has 64 characters or more, or has no room behind what is there when its turn comes. |
| `VfsPath.DotsInPath` | kernel/vfs.c:188-219 | In a path that is not cut, "/." changes nothing, and neither does a name followed by "/..", if the path up to the name has a result. |
| `VfsPath.WalkUp` | kernel/vfs.c:195-206 | On the stack: a name and ".." after it leave what was there, and at the root ".." leaves the root. |
| `VfsPath.ResultStack` | kernel/vfs.c:160-227 | The components of a result are plain names: none empty, "." or "..", none with a slash; the result fits its buffer. |
| `VfsPath.Idempotent` | kernel/vfs.c:160-227 | Normalising a result, from any working directory, gives it back. |
| `VfsPath.RelativePath` | kernel/vfs.c:171-183 | A relative path is refused if working directory and path together are too long, and otherwise walked from where the working directory leads, normalised or not. |
| `VfsPath.NoPath` | kernel/vfs.c:166-170 | No path, or an empty one, means the working directory, and without one the root. |
| `VfsPath.FromTheRoot` | kernel/vfs.c:171-183 | A relative path without an absolute working directory is walked from the root. |
| `VfsPath.WalksWhole` | kernel/vfs.c:170-184 | What is walked is the whole of what was asked for if and only if that is not an absolute path of 256 characters or more; of such a path the first 255 characters are walked. |
| `VfsPath.CutExample` | kernel/vfs.c:170-172 | A path of 260 characters that leads to /b normalises to /a without an error. |
| `VfsPath.CompsRender` | kernel/vfs.c:188-219 | Splitting a rendered stack gives the stack. |
| `VfsPath.Split` | kernel/vfs.c:299-325 | The parent is everything but the last component and the name is the last one; the two joined are the normalised path; exactly when it fails; a parent buffer of one byte gets the empty string. |
| `Calendar.ToEpoch` | kernel/rtc.c:168-195 | The number of seconds in 32 bits, with the days as the closed form of the Gregorian calendar gives them; 0 for values out of range. |
| `Calendar.ToCalendar` | kernel/rtc.c:197-228 | The date that exists and is that many seconds after the start of 1970, by the closed form as well; both loops end. |
| `Calendar.CivilSeconds` | kernel/rtc.c:164-195 | The loop over years with the table of months gives the days that a formula in quotients by 4, 100, 400 and 5 gives, for every date in range. |
| `Calendar.YearStart` | kernel/rtc.c:164-182 | The days before a year in closed form. |
| `Calendar.SecondsUnique` | kernel/rtc.c:168-195 | Different dates that exist are different numbers of seconds. |
| `Calendar.RoundTrips` | kernel/rtc.c:164-228 | Every 32-bit time converts to a date and back; every date that exists and fits 32 bits converts to a time and back. |

## Left out

- VmKernel.Kernel.HandleLazyFault: what the region supplies is a parameter; ElfLazy.FillPage says what it is for a page of a program image. A backing that cannot be read leaves a zeroed page mapped, which is not modelled.
- VmKernel.Kernel.PageFault: the handler of demand regions, which no code registers, is left out.
- VmSystem.Do: entries of a space that is gone, and the last release of the kernel's own space, are not issued.
- KernelHeap.Heap.Krealloc: requires a size of at most 2^32 - 16, because for larger ones the new block is too small for the copy (HeapBlocks.TotalWraps).
- MinfsLayout.LayoutExact: devices of 2^32 - 4096 sectors or more, on which the 32-bit sums of the loop wrap around, are not covered.
- MinfsFs.Minfs.Read: requires a block count of at most 128, the number of direct words; a larger one makes the code read behind the record.
- ElfLazy.FillPage: what a copy from outside the image brings in is not modelled.
- ElfLazy.LazyIsEager: segments that wrap around are not covered; the same holds for ElfLazy.RegionsBacked, ElfLazy.PageOfSegment and ElfLazy.Touch. ElfLazy.CopiesInside and ElfLazy.PagesExact say what becomes of them.
- MinfsFs.Minfs.Write: the 32-bit sum of offset and size does not wrap around, which takes a buffer of nearly 4 GiB; finding the file by path is left out.
- MinfsFs.Minfs.Create: looking up the name is in MinfsNames.Create; the same holds for MinfsFs.Minfs.Unlink and MinfsNames.Unlink.
- MinfsTree.LifeRooted: the parent given to a create is a directory; minfs_create tests that before anything else, as MinfsNames.Create says.
- MinfsRuns.FileLivesOn: files are followed that are on the disk as in the cache when the life starts; a file that a failed write left different in memory is not followed until it is written through.
- Fat32.Volume.Unlink: finding the entry by name is left out; the file is given by its number.
- Fat32.Volume.Create: checking the name against the bytes of the directory is left out; whether it is new and whether an entry is free are parameters.
- MmapRegions.Mmap.Map: the reference counts of the files and segments that regions hold are left out.
- MmapRegions.Mmap.Unmap: opening the file again for the upper half of a split region succeeds.
- Scheduler.Cpu.Tick: which blocked tasks wait for a child or an event that is there is a parameter; the block queue and the network, which a tick also serves, are left out.
- Shared-memory segments and their teardown.
- Device failures below minfs and FAT32, and the order in which FAT sectors reach the disk.
- minfs: directory listing, vnode handling, and the sectors that format writes.
- FAT32: directory entries as bytes, long names, formatting, the boot sector.
- A failed device read that leaves part of its data in a cache entry.
- Partition requests that run the pump again from inside a request.
- Task creation, exit, waiting and signals; the scheduler is proved for any such behaviour of the other tasks.
- Reading ELF headers from the file, and the argument stack.
- Walking a normalised path through directories and mount points.
- Interrupts, hardware drivers, the network, the terminal, system call dispatch and user programs.
