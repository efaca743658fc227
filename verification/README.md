# Lizarx: a verified model

Lizarx is a small SMP kernel with a dynamic linker and a RAM file system. This project models the parts
of it that are state machines or data structures over memory, and proves what they keep in every run.
`dafny verify dfyconfig.toml` checks everything.

The code that changes things in place is modelled in place: classes whose methods carry the loops of the
C code, each proved against a specification function; the results about runs are then lemmas about those
functions. A locked section of the kernel is one atomic step.

| files | system | main results |
|---|---|---|
| `Pmm`, `PageTables`, `Vmm`, `KernelMemory`, `MmuSteps`, `Boot` | frame stack, four-level page tables walked through the one window page `TMP_PAGEBUF`, address spaces | a walk through the window has the effect of a flat page map in every space, whatever the TLB of the core holds; every frame has one owner in every run over all spaces, and the loops through the window perform the steps of these runs |
| `RangeStack` | the stack of free virtual ranges | in every run, whatever is pushed, only free addresses are handed out, exactly if the slot before the stack is empty; exactly when a run loses no address |
| `Shootdown`, `ShootdownRuns` | the deferred TLB shootdown | safe in every run exactly for single-page frees or one core; drains |
| `Semaphore`, `ReadersWriters`, `ReadersWritersDeadlock` | `semop` and the readers and writers over it | exclusion for any number of threads up to the exact limit; no run gets stuck exactly with one or two threads |
| `BlockFile`, `CStrings`, `DirectoryFile`, `DirectoryScan`, `Ramfs`, `MountPoint`, `Initrd` | the RAM file system down to bytes in blocks and path buffers | a block file is a flat byte array; the record loop is the lookup in a directory, and exactly when it finds an entry that was written after a read beyond the end; every file of the initial archive reads back byte for byte |
| `ElfHash`, `ElfImage`, `Relocation`, `RelocatedBytes` | symbol lookup and relocation over a byte memory | the hash lookup is linear search; relocation implements "first definition in scope" and touches nothing else |
| `ChunkList`, `MessageQueue`, `Scheduler` | the chunked pointer list, message queues, the scheduler of one core | list operations on the concatenated slots; first in first out per queue; one turn for each active thread in each round; served despite sleepers exactly at the front of the list |
| `Basics` | options, sequences without repetition | shared |
| `Heap`, `Calendar` | the kernel heap, calendar arithmetic | blocks tile the arena and payloads never overlap; `mktime` of `gmtime_r` is one day later |

`PageTables.MapFrom`, `RangeStack.Find`, `Shootdown.Left`, `Semaphore.Performed`, `Ramfs.Create` and the like
are specification functions; a method is tied to one by its `ensures`, and what the code promises is proved
about the function. The recursion of `vmm_map` on the window page is proved to nest one level deep by the
`decreases` clauses of `Vmm.Mmu.VmmMap`: a call for the window never calls itself again. `Vmm.Mmu` keeps the TLB of
the core that holds `vmm_lock`. Nothing is supposed of it: it may hold an old window, or pages that another core has
freed (`Vmm.Mmu.SwitchCore`). Only an access to an allocated page by its own address asks that the TLB knows no
other frame for this page, and the allocation leaves it so. The root of a context and its first tables are reached at
kernel addresses of their own, past the TLB (`Vmm.Pointer.Direct`): the model supposes, as the kernel does, that these
pages stay mapped to the frames of the tables, the first ones to themselves by `vmm_init`, later ones by `kvmm_malloc`.

The notes at src/kernel/mm/vmm.c:101 and 488 claim that the recursion on the window ends because the first tables lie
in a row; what the proof needs is that the window's own path is present, which every context has.

## What the code does not keep

Some intended properties do not hold. Each of these has its exact condition, for all inputs or runs, and a run or
an input that violates it.

- A freed range of two pages is invalidated only at its first page. Safe in every run exactly for single pages or
  one core: `ShootdownRuns.ShootdownSafeIff`, `ShootdownRuns.UnsafeRun`.
- The semaphore value is a 16-bit integer. Exclusion in every run exactly up to 0x8001 threads:
  `ReadersWriters.ExclusiveIff`, `ReadersWriters.ValueWraps`.
- An "up" that leaves the value negative puts its caller to sleep and wakes nobody. No run gets stuck exactly with
  one or two threads: `ReadersWritersDeadlock.NeverStuckIff`, with three writers
  (`ReadersWritersDeadlock.ThreeWritersDeadlock`) or three readers
  (`ReadersWritersDeadlock.ThreeReadersDeadlock`) against it.
- The merge loop of the range stack looks one slot above the top. A push is lost exactly if it merges there:
  `RangeStack.PushExactIff`, `RangeStack.LastRangeLost`. A run keeps all addresses free or handed out exactly if none
  of its pushes does: `RangeStack.CompleteIff`, `RangeStack.LosingRun`. No run hands out an address twice for that.
- A search without a fit reads the slot before the stack: `RangeStack.FindFromStackIff`, `RangeStack.TopIsNotTaken`.
  All runs hand out free addresses only, exactly if this slot is empty: `RangeStack.AllRunsSafeIff`,
  `RangeStack.FrontIsReached`. A find can take the pointer below the stack: `RangeStack.PointerLeavesIff`.
- `memcpy` copies upwards over itself: `RangeStack.MemcpyMovesIff`, `RangeStack.CopyDiffers`. `memmove`
  uses it only where that is right.
- A split of the heap can leave a block too small for its own header: `Heap.KmallocTiledIff`,
  `Heap.BadSplitReachable`.
- The block number of a file offset is cut to 32 bits: `BlockFile.FlatIff`, `BlockFile.OverwritesByte`.
- Reading a directory beyond its end enlarges it. Its entries are still found (`DirectoryScan.EnlargedScan`), but the
  entry created next is found, in all cases, exactly if the new size is a whole number of records:
  `DirectoryScan.FoundAfterIff`; one byte read from an empty directory loses it: `DirectoryScan.EntryIsLost`.
- A thread that goes to sleep sends the scheduler back to the front of the list. In spite of sleepers exactly the
  thread at the front is served in every run: `Scheduler.ServedIff`, `Scheduler.SleeperStarves`.
- `pmm_init` marks used frames in a bitmap that its fill loop never reads. The stack is free of frame 0 and of tables
  exactly if the memory map calls none of them usable: `Boot.GoodFreeIff`, `Boot.BadMap`. Frames have one owner at the
  start exactly with such a map that leaves the window's address out too (`Boot.StartIsGoodIff`); else the first
  allocation may return the root of the tables as a page: `Boot.TableHandedOut`.
- `pmm_init` cuts the length of a region to 32 bits. No page of a usable region is left out exactly if it is shorter
  than 4 GiB: `Pmm.NoneLeftOutIff`, `Pmm.LongRegionGivesNone`.
- `tm_yday` counts from 1, so that `mktime` of `gmtime_r` is one day late, and it wraps in the last day of
  32-bit time: `Calendar.RoundTrip`, `Calendar.RoundTrip32Iff`.

## Model

| member | source | states |
|---|---|---|
| Pmm.AddressesExact | src/kernel/mm/pmm.c:183-188 | the fill loop visits exactly the page-aligned addresses of a region, each once |
| Pmm.FramesDistinct | src/kernel/mm/pmm.c:177-191 | for a memory map in ascending order every usable frame is stacked exactly once and nothing else is |
| Pmm.StackedIff | src/kernel/mm/pmm.c:177-191 | by base and length alone: stacked are the whole pages, counted from the first page boundary, of the usable regions, of each up to its length modulo 2^32 |
| Pmm.NoneLeftOutIff | src/kernel/mm/pmm.c:183-183 | no whole page of a usable region is left out exactly if the region is shorter than 4 GiB |
| Pmm.LongRegionGivesNone | src/kernel/mm/pmm.c:183-183 | a region of 4 GiB gives no frame |
| Pmm.FrameStack.constructor | src/kernel/mm/pmm.c:126-193 | after `pmm_init` the stack holds exactly the frames of the map, in order |
| Pmm.FrameStack.Malloc4k | src/kernel/mm/pmm.c:195-202 | hands out the top frame and takes only that one off the stack |
| Pmm.FrameStack.Free4k | src/kernel/mm/pmm.c:204-210 | puts the frame back on top and keeps all others |
| PageTables.SplitInjective | src/kernel/mm/vmm.c:425-425 | two page numbers are equal exactly if their four indices are; the walks use the sum `SplitSum` that it rests on |
| PageTables.MapRefinesFlatMap | src/kernel/mm/vmm.c:454-542 | mapping updates a flat page map: the page has the new entry, in all spaces if it is a kernel page and else in its own space only; every other page of every space translates as before, also when tables are created; the first `k` free frames become tables |
| PageTables.WalkIsOpen | src/kernel/mm/vmm.c:520-521 | on the walk to a mapped page the three upper entries are present, writable and open to user mode |
| PageTables.KernelSpaceCommon | src/kernel/mm/vmm.c:103-157 | all contexts translate every page of the kernel's gigabyte alike |
| PageTables.FirstTables | src/kernel/mm/vmm.c:101-128 | the first tables a context remembers are those on the window's own path |
| PageTables.LinkKeepsLookups | src/kernel/mm/vmm.c:519-528 | linking a zeroed table into an empty slot changes no translation |
| PageTables.NewSpace | src/kernel/mm/vmm.c:107-152 | the filled tables of `vmm_crcontext` are a new context beside the old ones |
| PageTables.NewSpaceLookup | src/kernel/mm/vmm.c:107-152 | a new context has the kernel's translations and no other |
| Vmm.Mmu.constructor | src/kernel/mm/vmm.c:120-156 | the startup context built in place from the reserved pages is a context whose last table is empty, the page of its range stack is cleared, nothing else is written |
| Vmm.FirstSpaceIsEmpty | src/kernel/mm/vmm.c:144-154 | the first context translates no page yet |
| Vmm.Mmu.VmmMap | src/kernel/mm/vmm.c:454-542 | through the window and with any TLB, `vmm_map` has the effect of a flat map on every page but the window of every context, drops the page from the TLB, lets it cache nothing else but the window, and takes frames for tables only; misaligned calls change nothing; a call for the window writes the window's entry and needs no further call |
| Vmm.Mmu.VirtToPhys | src/kernel/mm/vmm.c:413-449 | walking through the window with any TLB returns the frame a direct walk of physical memory finds, and changes nothing but the window; for the window page itself it returns the table last shown there, without a context the address |
| Vmm.MapThroughWindow | src/kernel/mm/vmm.c:484-531 | with the window's entry set aside, a walk that remaps the window at each level has the effect of the direct walk |
| Vmm.Mmu.MallocPage | src/kernel/mm/vmm.c:223-225 | one round of the loop of `vmm_malloc`, for any context: the next free frame is mapped at the page with the effect of a flat map |
| Vmm.Mmu.KvmmFreePage | src/kernel/mm/vmm.c:250-254 | one round of the loop of `kvmm_free_unsafe`: the frame that the tables show is free again, the page is unmapped, and the TLB forgets it |
| Vmm.Mmu.KvmmMallocPage | src/kernel/mm/vmm.c:223-225 | a page of an allocation is mapped to a frame that was free and is no table, and the TLB forgets what it knew of the page |
| Vmm.Mmu.SwitchCore | src/kernel/mm/vmm.c:216-216 | the next core may come with any TLB and any context |
| Vmm.Mmu.CrContext | src/kernel/mm/vmm.c:103-157 | the new context shares the kernel's gigabyte and maps nothing above it; all older contexts stay contexts and translate as before, except for the three pages allocated and the window; the frame behind the range stack's page holds zeros; no free frame is lost: each is still free, a table or behind that page |
| Vmm.Mmu.ClearAndLink | src/kernel/mm/vmm.c:144-152 | one round of the loop changes one table, to a single entry for the next one |
| KernelMemory.OneOwner | src/kernel/mm/vmm.c:214-256 | a frame is either free, a table, or behind a live page, never two of these |
| KernelMemory.NoSharing | src/kernel/mm/vmm.c:206-230 | live pages of any two spaces share a frame exactly if they are the same kernel page or the same page of the same space |
| KernelMemory.LivePageIsAccessible | src/kernel/inc/mm/vmm.h:28-30 | all four entries on the walk to a live page are present and writable; above the kernel's gigabyte all four have the user bit, a kernel page's last has not; a last entry has the caching bit and no other |
| KernelMemory.AccessInEveryRun | src/kernel/mm/vmm.c:205-230 | so it is after every run |
| KernelMemory.MallocKeepsInv | src/kernel/mm/vmm.c:214-230 | an allocation for the kernel or for any user space keeps single ownership, with all tables it needs |
| KernelMemory.FreeKeepsInv | src/kernel/mm/vmm.c:246-256 | so does a kernel free, whichever space is current |
| KernelMemory.SpaceKeepsInv | src/kernel/mm/vmm.c:103-157 | so does a new space, whose tables lie in the frames behind two pages that were allocated |
| KernelMemory.OwnershipInEveryRun | src/kernel/mm/vmm.c:103-256 | in every run of allocations in any space, kernel frees, reclaims and new spaces no frame or page is lost or owned twice, and distinct live pages have distinct frames that the tables of their spaces really map |
| MmuSteps.MallocPage | src/kernel/mm/vmm.c:214-230 | through the window and with any TLB, an allocation in any space is the step of `KernelMemory` and keeps its invariant, under the labels of the tables really there |
| MmuSteps.FreePage | src/kernel/mm/vmm.c:246-256 | so is a kernel free |
| MmuSteps.SwitchCore | src/kernel/mm/vmm.c:216-216 | another core with any TLB and any known context goes on in the same state |
| Boot.GoodFreeIff | src/kernel/mm/pmm.c:136-191 | the stack of `pmm_init` holds neither frame 0 nor a table exactly if no usable region contains one, whatever was marked used |
| Boot.BadMap | src/kernel/mm/pmm.c:177-191 | a map that calls frame 0 or a table usable, whose stack is not good |
| Boot.StartIsGoodIff | src/kernel/mm/vmm.c:77-94 | when allocation starts each frame has one owner, under some labels, and the window is no free page, exactly if the map leaves out frame 0, the first tables and the address of the window |
| Boot.TableHandedOut | src/kernel/mm/vmm.c:214-230 | with the root's frame called usable the first allocation maps it as a page |
| Boot.OwnershipFromBoot | src/kernel/mm/vmm.c:120-156 | with such a map every run from the first context on keeps single ownership |
| RangeStack.Memcpy | src/kernel/lib/string.c:22-32 | the forward copy, also over itself, computes `Copied` |
| RangeStack.CopiedRepeats | src/kernel/lib/string.c:22-32 | copied upwards over itself, the part before the destination is repeated |
| RangeStack.MemcpyMovesIff | src/kernel/lib/string.c:22-32 | `memcpy` moves the block, whatever it holds, exactly if it does not copy upwards over itself |
| RangeStack.Memmove | src/kernel/lib/string.c:33-102 | an overlapping block is moved right in both directions and nothing else is written |
| RangeStack.StackPage.FindFreemem | src/kernel/mm/vmm.c:353-373 | the search from the top and the removal or shrinking in place compute `Find` |
| RangeStack.StackPage.PushFree | src/kernel/mm/vmm.c:374-393 | the merge loop, which looks one slot too far, and the push compute `Push` |
| RangeStack.PushAdds | src/kernel/mm/vmm.c:390-392 | a push that touches no range adds a slot with its range on top |
| RangeStack.PushExtends | src/kernel/mm/vmm.c:379-389 | else it extends the first range that touches, on that side, and adds no slot |
| RangeStack.StartIsGood | src/kernel/mm/vmm.c:82-94 | a stack whose ranges do not overlap is a start for all these runs: its addresses are free, once each, and none is missing |
| RangeStack.ClearedStack | src/kernel/mm/vmm.c:117-137 | a cleared stack has no free address and hands out none |
| RangeStack.FindExact | src/kernel/mm/vmm.c:353-373 | a find takes exactly the range it returns out of the free addresses |
| RangeStack.FindFromStackIff | src/kernel/mm/vmm.c:358-372 | the range comes from the stack exactly if an entry below the top fits; else the slot before the stack is handed out or nothing |
| RangeStack.TouchesDeadIff | src/kernel/mm/vmm.c:377-389 | exactly when the merge loop ends up in the dead slot above the top |
| RangeStack.PushExactIff | src/kernel/mm/vmm.c:374-393 | a push adds exactly the pushed range if and only if it does not merge with that slot |
| RangeStack.LastRangeLost | src/kernel/mm/vmm.c:359-393 | a find and a push that lose the pushed range |
| RangeStack.TopIsNotTaken | src/kernel/mm/vmm.c:358-372 | a stack with one large entry, from which the slot before the stack is handed out |
| RangeStack.PointerLeavesIff | src/kernel/mm/vmm.c:359-365 | a find takes the pointer below the first slot exactly if there is one entry and the slot before it has the size asked for |
| RangeStack.DeadPushChangesNothing | src/kernel/mm/vmm.c:374-393 | a push that merges with the dead slot changes no free range |
| RangeStack.StepKeepsInv | src/kernel/mm/vmm.c:353-393 | every find, failing ones included, and every push keep each address free at most once and never free and handed out; a find hands out free addresses |
| RangeStack.NeverHandedOutTwice | src/kernel/mm/vmm.c:353-393 | in every run, also with pushes that merge with the dead slot, no address is handed out that is not free at that moment |
| RangeStack.CompleteIff | src/kernel/mm/vmm.c:353-393 | after a run every address is still free or handed out exactly if none was missing before and no push of the run merged with the dead slot |
| RangeStack.LosingRun | src/kernel/mm/vmm.c:359-393 | a run of a find and a push that loses a range |
| RangeStack.AllRunsSafeIff | src/kernel/mm/vmm.c:353-393 | all runs hand out free addresses only and leave a sound stack, if and only if the slot before the stack is empty |
| RangeStack.FrontIsReached | src/kernel/mm/vmm.c:358-372 | if it is not empty, finds of single pages get there |
| Shootdown.InvalidStack.RemindToMarkFree | src/kernel/mm/vmm.c:398-409 | records the range with the freeing core's bit, on top of the others |
| Shootdown.InvalidStack.SyncAddrSpace | src/kernel/mm/vmm.c:543-561 | the loop marks every entry, drops the first page of each from the TLB, and frees complete entries from the top only |
| Shootdown.SyncConserves | src/kernel/mm/vmm.c:548-559 | entries left and entries freed are together the entries there were, each once, and only complete ones are freed |
| Shootdown.Drain | src/kernel/mm/vmm.c:543-561 | after every core has synchronised once the stack is empty |
| ShootdownRuns.RunKeepsInv | src/kernel/mm/vmm.c:246-561 | every interleaving of maps, TLB refills, frees and synchronisations keeps each page in one place and each stale translation excused |
| ShootdownRuns.ShootdownSafeIff | src/kernel/mm/vmm.c:398-409 | in all runs no core caches a page that may be handed out nor a stale translation that is not pending for it, if and only if frees are of one page or there is one core |
| ShootdownRuns.UnsafeRun | src/kernel/mm/vmm.c:550-555 | a run on two cores that frees two pages and hands the second out while it is still cached |
| ShootdownRuns.PageReturns | src/kernel/mm/vmm.c:246-256 | a single page on two cores: cached and not free while it is pending, free and cached nowhere once the other core has synchronised |
| ShootdownRuns.DrainsInEveryRun | src/kernel/mm/vmm.c:543-561 | a run without frees in which every core synchronises leaves nothing pending, whatever else happens |
| Semaphore.Short | src/kernel/ipc/sem.c:54-54 | the value after an addition is its 16-bit remainder |
| Semaphore.SemGroup.Semop | src/kernel/ipc/sem.c:50-73 | the loop over the operations, with its lists and wakeups, computes `Performed` |
| Semaphore.SemopById | src/kernel/ipc/sem.c:41-74 | a negative id is refused, any other works on its group |
| Semaphore.SemGroup.One | src/kernel/ipc/sem.c:52-70 | one operation: unknown numbers are skipped, a negative value puts the caller to sleep, else the first half of the sleepers is woken |
| Semaphore.PerformedInTurn | src/kernel/ipc/sem.c:50-72 | later operations are performed on what the earlier ones leave, unless these put the caller to sleep |
| Semaphore.SleepsIff | src/kernel/ipc/sem.c:50-63 | a call sleeps exactly if an operation leaves its semaphore negative after earlier ones that did not |
| Semaphore.ApplyAccounts | src/kernel/ipc/sem.c:52-70 | an operation keeps every thread blocked exactly as often as it is listed |
| Semaphore.SemopAccounts | src/kernel/ipc/sem.c:41-74 | no `semop` loses a sleeper or lists it twice, and it blocks its caller exactly if it returns -1 |
| ReadersWriters.Down | src/kernel/ipc/sem.c:54-62 | a down puts its caller to sleep exactly if somebody else owes an up |
| ReadersWriters.Up | src/kernel/ipc/sem.c:54-70 | an up with two or more others waiting puts its caller to sleep and wakes nobody, any other wakes all sleepers |
| ReadersWriters.ReadsAlone | src/usr/hlib/hlib_vfs.c:122-139 | the ten states of a reader that meets nobody: it copies with write_sem held for all readers, and leaves all as it was |
| ReadersWriters.ReadsBeside | src/usr/hlib/hlib_vfs.c:122-139 | a reader beside others passes without write_sem |
| ReadersWriters.WritesAlone | src/usr/hlib/hlib_vfs.c:83-91 | a writer copies with write_sem held, and gives it back |
| ReadersWriters.StepKeepsInv | src/usr/hlib/hlib_vfs.c:83-140 | every step of every thread keeps the invariant of the two locks and the count |
| ReadersWriters.SafeUpToLimit | src/usr/hlib/hlib_vfs.c:83-140 | exclusion in every run of up to 0x8001 threads |
| ReadersWriters.ExclusiveIff | src/usr/hlib/hlib_vfs.c:83-140 | no run has a writer copying beside another writer or a reader, if and only if there are at most 0x8001 threads |
| ReadersWriters.ValueWraps | src/kernel/ipc/sem.c:54-55 | one thread above the limit the value wraps and a second writer gets in |
| ReadersWritersDeadlock.UpSticksIff | src/kernel/ipc/sem.c:54-70 | an up leaves its semaphore with all owners asleep on it, its caller included, exactly if two or more others wait |
| ReadersWritersDeadlock.NeverStuckIff | src/usr/hlib/hlib_vfs.c:83-140 | in every reachable state somebody is awake and neither semaphore has all its owners asleep on it, if and only if there are at most two threads |
| ReadersWritersDeadlock.PairStep | src/usr/hlib/hlib_vfs.c:83-140 | of two threads only a down ever puts one to sleep |
| ReadersWritersDeadlock.WriteStuckForever | src/usr/hlib/hlib_vfs.c:83-140 | once `write_sem` is stuck nobody asleep on it is woken and nobody reads or writes in any run |
| ReadersWritersDeadlock.ReadStuckForever | src/usr/hlib/hlib_vfs.c:93-140 | once `read_sem` is stuck nobody asleep on it is woken and nobody gets in or out of a read section in any run |
| ReadersWritersDeadlock.ThreeWritersDeadlock | src/usr/hlib/hlib_vfs.c:83-92 | three writers can get stuck, among any number of threads |
| ReadersWritersDeadlock.ThreeReadersDeadlock | src/usr/hlib/hlib_vfs.c:122-140 | three readers without a writer can, and if they are all there are nobody is awake any more |
| BlockFile.ByteLayout | src/usr/Daemons/VFS/FS/tmpFS/tmpfs.cpp:279-292 | byte i of a file lies in one of twelve direct blocks of 4096 bytes or of 511 behind the indirect block |
| BlockFile.Node.WriteToNode | src/usr/Daemons/VFS/FS/tmpFS/tmpfs.cpp:307-354 | writes exactly the bytes it reports at their places, across direct and indirect blocks, keeps all others, and reports min(n, capacity - offset), 0 past the capacity |
| BlockFile.Node.ReadFromNode | src/usr/Daemons/VFS/FS/tmpFS/tmpfs.cpp:262-306 | returns the bytes of the file from the offset on up to the first missing block or the capacity; changes nothing but the size, which it can enlarge |
| BlockFile.ReadIsUnique | src/usr/Daemons/VFS/FS/tmpFS/tmpfs.cpp:262-306 | what a read returns is determined by the contents |
| BlockFile.ReadAfterWrite | src/usr/Daemons/VFS/FS/tmpFS/tmpfs.cpp:262-354 | a read of what was written returns it |
| BlockFile.WriteKeepsOthers | src/usr/Daemons/VFS/FS/tmpFS/tmpfs.cpp:307-354 | all bytes outside of the written range are as before |
| BlockFile.WriteExists | src/usr/Daemons/VFS/FS/tmpFS/tmpfs.cpp:307-354 | a write that fits has a result: block after block |
| BlockFile.OverwritesByte | src/usr/Daemons/VFS/FS/tmpFS/tmpfs.cpp:310-318 | a write beyond the reach of block numbers overwrites a byte at the start of the file |
| BlockFile.FlatIff | src/usr/Daemons/VFS/FS/tmpFS/tmpfs.cpp:310-318 | for every file and all bytes a write does at the offset given what it should, if and only if the 32-bit block number does not cut the offset or it makes no difference |
| CStrings.Strlen | src/usr/Daemons/VFS/FS/tmpFS/tmpfs.cpp:365-366 | the length of the string |
| DirectoryScan.ScanDirectory | src/usr/Daemons/VFS/FS/tmpFS/tmpfs.cpp:241-259 | the record loop on any file computes `Scan`: the buffer keeps what a short read leaves, and the size grows to what was read |
| DirectoryScan.RecordWindow | src/usr/Daemons/VFS/FS/tmpFS/tmpfs.cpp:248-248 | a record that is there is read back, whatever the buffer held |
| DirectoryScan.IntactScan | src/usr/Daemons/VFS/FS/tmpFS/tmpfs.cpp:246-257 | on a directory of whole records the loop is the lookup among its entries and changes nothing |
| DirectoryScan.EnlargedScan | src/usr/Daemons/VFS/FS/tmpFS/tmpfs.cpp:246-270 | a directory enlarged by a read still finds its entries and no other name, for every name but the empty one, unless the buffer holds it by chance |
| DirectoryScan.FoundAfterIff | src/usr/Daemons/VFS/FS/tmpFS/tmpfs.cpp:246-362 | the record `create_hardlink` writes after such a read is found with its number, whatever was on the stack of the writer and, short of the name itself, of the reader, exactly if the size was a whole number of records |
| DirectoryScan.EntryIsLost | src/usr/Daemons/VFS/FS/tmpFS/tmpfs.cpp:246-362 | after a read of one byte from an empty directory the entry created next is not found |
| DirectoryFile.DirectoryBytes | src/usr/Daemons/VFS/FS/tmpFS/tmpfs.cpp:355-362 | the bytes of a directory: 266 for an entry, its number at place 4, its name from place 10 to a zero |
| DirectoryFile.RecordAppends | src/usr/Daemons/VFS/FS/tmpFS/tmpfs.cpp:355-362 | writing a record at the end adds one entry and keeps the others, across block borders |
| Ramfs.LookupFinds | src/usr/Daemons/VFS/FS/tmpFS/tmpfs.cpp:246-261 | an entry with the name is found exactly if there is one |
| Ramfs.ResolveLast | src/usr/Daemons/VFS/FS/tmpFS/tmpfs.cpp:209-238 | resolving component by component is resolving the parent path and looking the name up there; a missing or non-directory component leads nowhere |
| Ramfs.StatItem | src/usr/Daemons/VFS/FS/tmpFS/tmpfs.cpp:196-208 | every loaded path leads to its own node number |
| Ramfs.LoadItem | src/usr/Daemons/VFS/FS/tmpFS/tmpfs.cpp:176-195 | creating the next item succeeds and keeps every earlier path |
| Ramfs.LoadThenFill | src/usr/Daemons/VFS/FS/tmpFS/tmpfs.cpp:144-148 | also if the node is filled after it was linked |
| Ramfs.LoadThenRead | src/usr/Daemons/VFS/FS/tmpFS/tmpfs.cpp:161-167 | reading a loaded path can only return the archived bytes |
| MountedRamfs.CutKey | src/usr/Daemons/VFS/FS/tmpFS/tmpfs.cpp:244-253 | the path buffer cut at the slash holds the component, and writing the slash back restores it |
| MountedRamfs.Find | src/usr/Daemons/VFS/FS/tmpFS/tmpfs.cpp:363-375 | the two loops return the place of the first slash, or -1 |
| MountedRamfs.MountPoint.GetFromDir | src/usr/Daemons/VFS/FS/tmpFS/tmpfs.cpp:239-261 | reading record after record finds the node of the component; the buffer is mended exactly if it was found |
| MountedRamfs.MountPoint.ResolvePath | src/usr/Daemons/VFS/FS/tmpFS/tmpfs.cpp:209-238 | the loop over the buffer computes `Resolve` and where the last name starts |
| MountedRamfs.MountPoint.Stat | src/usr/Daemons/VFS/FS/tmpFS/tmpfs.cpp:196-208 | the node of the path in the tree, or null |
| MountedRamfs.MountPoint.Pread | src/usr/Daemons/VFS/FS/tmpFS/tmpfs.cpp:161-167 | reads what the path names in the tree, file or directory, nothing for a missing path; the file behind the path grows to the end of the read, and afterwards the mount point is sound exactly if it is no directory or did not grow |
| MountedRamfs.MountPoint.AddNode | src/usr/Daemons/VFS/FS/tmpFS/tmpfs.cpp:187-192 | the inode number of a new node is its index in the chunked list, and stays so |
| MountedRamfs.MountPoint.CreateHardlink | src/usr/Daemons/VFS/FS/tmpFS/tmpfs.cpp:355-362 | adds the entry to the directory's file, and so to the tree |
| MountedRamfs.MountPoint.Create | src/usr/Daemons/VFS/FS/tmpFS/tmpfs.cpp:176-195 | adds an empty file under the path; changes nothing if the directory is not there |
| MountedRamfs.MountPoint.Mkdir | src/usr/Daemons/VFS/FS/tmpFS/tmpfs.cpp:168-175 | adds an empty directory, a slash at the end is ignored |
| Initrd.ParsesOctal | src/usr/Daemons/VFS/FS/tmpFS/tmpfs.cpp:136-136 | parsing the octal digits of a size gives the size |
| Initrd.ItemBytes | src/usr/Daemons/VFS/FS/tmpFS/tmpfs.cpp:136-148 | the bytes of a header: the name behind "./", eleven octal digits of the size at place 124, the data 512 bytes on |
| Initrd.Advance | src/usr/Daemons/VFS/FS/tmpFS/tmpfs.cpp:149-151 | the advance is 512 plus the size rounded up to 512, as the ustar Interchange Format demands (pax, POSIX.1-2017 XCU) |
| Initrd.SameTar | src/usr/Daemons/VFS/FS/tmpFS/tmpfs.cpp:134-152 | overwriting headers already passed does not change the rest of the archive |
| Initrd.LoadHeader | src/usr/Daemons/VFS/FS/tmpFS/tmpfs.cpp:134-152 | one round loads one item, or nothing for the top directory, and goes to the next header |
| Initrd.LoadArchive | src/usr/Daemons/VFS/FS/tmpFS/tmpfs.cpp:130-153 | `initrd` loads every item of a well-formed archive |
| Initrd.ReadBack | src/usr/Daemons/VFS/FS/tmpFS/tmpfs.cpp:130-167 | a `pread` of any archived file then returns exactly its bytes, and keeps it so for the next |
| ElfHash.HashStepBits | src/usr/ld_a/ld.c:324-331 | one round bit by bit: the top four bits of 16 h + c are exclusive-ored into bits 4 to 7 and cleared, all others stay |
| ElfHash.HashFrom | src/usr/ld_a/ld.c:321-333 | the hash stays below 2^28 despite the 32-bit wrap, so it is a valid signed number |
| ElfHash.LookupFindsIff | src/usr/ld_a/ld.c:353-385 | the chain walk finds a symbol exactly if one with the name exists |
| ElfHash.LookupIsLinear | src/usr/ld_a/ld.c:353-385 | with unique names it is linear search |
| ElfHash.BoundIsEnough | src/usr/ld_a/ld.c:371-382 | in a table without cycles the walk ends by itself |
| ElfHash.TwoInOneBucket | src/usr/ld_a/ld.c:371-382 | two names in one chain are both found |
| ElfImage.ElfHashOf | src/usr/ld_a/ld.c:321-333 | the loop computes `Hash` |
| ElfImage.GetSymByName | src/usr/ld_a/ld.c:353-385 | the walk over the tables in memory computes `Lookup` |
| ElfImage.LittleEndian | src/usr/ld_a/ld.c:52-57 | words of two, four and eight bytes have the lowest byte first |
| ElfImage.TableBytes | src/usr/ld_a/ld.c:364-378 | where buckets, chains and the fields of a symbol lie in memory |
| ElfImage.ReadStored | src/usr/ld_a/ld.c:63-63 | a stored word is read back |
| ElfImage.SameTable | src/usr/ld_a/ld.c:365-373 | what the tables say depends on their own bytes only |
| Relocation.TargetIsFirst | src/usr/ld_a/ld.c:58-67 | the search takes the first object in order that defines the name |
| Relocation.TargetNone | src/usr/ld_a/ld.c:58-67 | and fails exactly if none does |
| Relocation.FindTarget | src/usr/ld_a/ld.c:58-67 | the inner loop computes `Target` |
| Relocation.ReadEntry | src/usr/ld_a/ld.c:52-57 | type, slot, name and addend of an entry, for the four kinds of tables |
| Relocation.DoneStep | src/usr/ld_a/ld.c:50-68 | an entry is worked on without undoing the ones before |
| Relocation.SeesAfterStore | src/usr/ld_a/ld.c:42-127 | a store into a slot clear of the tables does not change what the linker reads |
| Relocation.ResolveReferences | src/usr/ld_a/ld.c:42-127 | each handled slot holds value plus load base, plus addend in the dynamic-rela table, of the first definition; unresolved slots and all other memory are unchanged |
| RelocatedBytes.TargetIsThere | src/usr/ld_a/ld.c:58-66 | the target is the value word of the first symbol found in a section, plus the load base of its object |
| RelocatedBytes.JmpRelFilled | src/usr/ld_a/ld.c:49-70 | for an entry of type 7 of 16 bytes the field holds value plus base of the first definition, modulo 2^64; without a definition it is unchanged |
| RelocatedBytes.DynRelFilled | src/usr/ld_a/ld.c:71-91 | the same for type 6 |
| RelocatedBytes.JmpRelaFilled | src/usr/ld_a/ld.c:92-111 | the same for type 7 in entries of 24 bytes, the addend left out |
| RelocatedBytes.DynRelaFilled | src/usr/ld_a/ld.c:112-127 | for types 6 and 1 value plus base plus the third word of the entry |
| RelocatedBytes.OtherBytesKept | src/usr/ld_a/ld.c:42-127 | every byte outside the fields of such entries is unchanged |
| Calendar.DateByFormula | src/kernel/lib/time.c:120-148 | for every time: the day of the year less the day of the month is (367 (mon + 1) - 362) / 12, less 1 or 2 from March on; the days before the year are those of the closed form; the clock adds up |
| Calendar.ClosedForm | src/kernel/lib/time.c:61-63 | the closed form of leap days agrees with counting year by year (Seconds Since the Epoch, section 4.16 of POSIX.1-2017 XBD) |
| Calendar.YearLoopFinds | src/kernel/lib/time.c:136-139 | the year loop finds the year the day lies in |
| Calendar.MonthLoopFinds | src/kernel/lib/time.c:142-146 | the month loop stops in December at the latest, with a valid day |
| Calendar.GmtimeIsDate | src/kernel/lib/time.c:125-149 | the fields are the date and clock of the second, in range |
| Calendar.GmtimeR | src/kernel/lib/time.c:125-149 | the loops compute `Gmtime` |
| Calendar.RoundTrip | src/kernel/lib/time.c:59-149 | the seconds of `gmtime_r(t)` are t plus exactly one day, for every t |
| Calendar.RoundTrip32Iff | src/kernel/lib/time.c:59-64 | in 32 bits exactly if the next day does not wrap |
| Heap.ServedIff | src/kernel/mm/vheap.c:51-58 | a request below 4072 bytes is served exactly if a free block has room for it and a header, and by the first such block |
| Heap.KmallocTiledIff | src/kernel/mm/vheap.c:58-80 | an allocation keeps the blocks tiling the arena if and only if its split leaves nothing or room for a header |
| Heap.KfreeTiled | src/kernel/mm/vheap.c:97-113 | a free always does |
| Heap.RunKeepsInv | src/kernel/mm/vheap.c:47-113 | every run keeps the tiling, and every live payload in a block of its own |
| Heap.HeapIsSafe | src/kernel/mm/vheap.c:37-113 | from `vheap_init` on no live payload overlaps another or a header |
| Heap.BadSplitReachable | src/kernel/mm/vheap.c:61-72 | two requests after which a third makes a block smaller than its header |
| Heap.KernelHeap.Kmalloc | src/kernel/mm/vheap.c:47-90 | the first fit over the linked headers, the split from the back and the prepending compute `Allocated`; the list stays acyclic |
| Heap.KernelHeap.Kfree | src/kernel/mm/vheap.c:97-113 | the search and the flag compute `Freed` |
| ChunkList.AddInserts | src/kernel/lib/libOS/list.c:84-101 | an add puts the entry at the first hole and keeps the order of the others |
| ChunkList.AddKeepsShape | src/kernel/lib/libOS/list.c:84-101 | the last chunk is never full, so the search for room never runs off the end |
| ChunkList.AddAppends | src/kernel/lib/libOS/list.c:84-101 | without holes an add appends |
| ChunkList.AddsKeepOrder | src/kernel/lib/libOS/list.c:84-101 | a list that is only added to keeps every index |
| ChunkList.RemoveTakesFirst | src/kernel/lib/libOS/list.c:102-116 | a remove takes out the first occurrence and nothing else |
| ChunkList.RemoveOfAbsent | src/kernel/lib/libOS/list.c:102-116 | a remove of a missing entry changes nothing |
| ChunkList.IndexOfIsFirst | src/kernel/lib/libOS/list.c:38-50 | the index is the place of the first occurrence, -1 exactly if there is none |
| ChunkList.SlotIsEntry | src/kernel/lib/libOS/list.c:22-37 | slots and indices correspond |
| ChunkList.FullIsSeenIff | src/usr/hlib/OO/AList.h:112-117 | the 8-bit counter tells a full chunk exactly for capacities below 256 |
| ChunkList.AList.GetByIndex | src/usr/hlib/OO/AList.h:37-53 | the entry with that index, null behind the last |
| ChunkList.AList.GetIndex | src/usr/hlib/OO/AList.h:54-67 | the index of an entry, -1 if it is not there |
| ChunkList.AList.EntryN | src/usr/hlib/OO/AList.h:131-140 | the number of entries, from the counters |
| ChunkList.AList.Add | src/usr/hlib/OO/AList.h:112-130 | the loops compute `Added`, with a chunk linked behind a full last one |
| ChunkList.AList.Remove | src/usr/hlib/OO/AList.h:141-156 | the loops compute `Removed` |
| ChunkList.AList.Set | src/usr/hlib/OO/AList.h:68-87 | exactly the entry with that index is replaced |
| ChunkList.OneMoreAdded | src/kernel/lib/libOS/list.c:38-101 | in a list without removes the last entry's index is the number of entries before it |
| MessageQueue.MessageQueues.Msgget | src/kernel/ipc/msg.c:27-36 | a new queue, with its index in the chunked list as id |
| MessageQueue.MessageQueues.Msgsnd | src/kernel/ipc/msg.c:60-85 | the message goes behind all others of its queue; -1 for an unknown queue |
| MessageQueue.MessageQueues.Msgrcv | src/kernel/ipc/msg.c:37-59 | the oldest message, if its size is the one asked for; else nothing changes |
| MessageQueue.FirstInFirstOut | src/kernel/ipc/msg.c:27-85 | in every run the messages received, then those waiting, are those there were and those sent, in order and byte for byte |
| MessageQueue.ReceivedIsPrefix | src/kernel/ipc/msg.c:27-85 | received messages are a prefix of those sent |
| MessageQueue.IdsDistinctAndStable | src/kernel/ipc/msg.c:27-36 | ids are distinct and keep naming their queue |
| Scheduler.StepKeepsInv | src/kernel/mt/threads.c:131-170 | the index stands at the front when no thread is current, and in the list else |
| Scheduler.ChosenIsActive | src/kernel/mt/threads.c:171-236 | after every run of dispatches, sleeps, wakeups, creations and kills a dispatch picks an active thread of the list, and idles exactly if there is none |
| Scheduler.OneTurnEach | src/kernel/mt/threads.c:212-224 | among as many dispatches as there are active threads each active thread gets exactly one |
| Scheduler.TurnDespiteWakeups | src/kernel/mt/threads.c:158-224 | with wakeups in between, every active thread gets a turn within as many dispatches as there are threads |
| Scheduler.SleeperStarves | src/kernel/mt/threads.c:147-157 | for every list and every thread behind its front, a run of any length in which it is active all along and never gets a turn, because the front thread sleeps and wakes |
| Scheduler.ServedIff | src/kernel/mt/threads.c:147-224 | with wakeups and sleeps of others in between, an active thread gets a turn in every run within as many dispatches as there are threads, if and only if it is the first of the list |
| Scheduler.Cpu.AreThereStillThreads | src/kernel/mt/threads.c:141-146 | true exactly if a thread of the list is active |
| Scheduler.Cpu.SearchFirst | src/kernel/mt/threads.c:204-210 | the loop without a current thread ends, at the first active one |
| Scheduler.Cpu.SearchNext | src/kernel/mt/threads.c:217-224 | the loop round the list ends, at the next active one |
| Scheduler.Cpu.DispatchThread | src/kernel/mt/threads.c:171-236 | computes the dispatch step, or idles |
| Scheduler.Cpu.GoToSleep | src/kernel/mt/threads.c:147-157 | the current thread is blocked and the search starts at the front again |
| Scheduler.Cpu.WakeUp | src/kernel/mt/threads.c:158-170 | the thread is active again, unknown ids change nothing |
| Scheduler.Cpu.CreateThread | src/kernel/mt/threads.c:45-66 | a new id is put somewhere into the list and no other thread moves past another |
| Scheduler.Cpu.KillThread | src/kernel/mt/threads.c:131-140 | the thread leaves the list and the search starts at the front again |

## Left out

- Pmm.FrameStack.constructor: the bitmap that lines 137-174 fill is not modelled, because the fill loop does not read it: frames marked used are stacked like all others.
- Pmm.FrameStack.Malloc4k: with an exhausted stack the code hands out what lies behind it; that is not modelled.
- Pmm.FrameStack.Free4k: a free below the lowest slot writes in front of the stack; that is not modelled.
- Vmm.Mmu.VmmMap: says nothing about the window page's own translation afterwards, because every walk remaps it; the phase of boot before paging is active, the 32-bit layout, and the 40-bit width of the frame field are not modelled.
- Vmm.Mmu.VirtToPhys: a misaligned address, on which the code loops for ever, is excluded.
- Vmm.Mmu.CrContext: supposes that the shared directory's page is mapped to itself, as `vmm_init` leaves it; the range stack of the new context is only cleared.
- KernelMemory.OwnershipInEveryRun: the allocation of one page is a step, and so is the filling of a new space's tables; what happens when no frame is left is not modelled. `MmuSteps` ties the allocations and the frees to the loops; a new space is tied to `Vmm.Mmu.CrContext` by the contract of that method only, which also clears the page of the range stack.
- Vmm.Mmu.KvmmFreePage: supposes that the page is mapped to a frame that is neither free nor a table, as a live page is.
- Boot.StartIsGoodIff: usable regions above kernel space, whose entries on the range stack end before they begin, and more than 256 regions are not modelled.
- RangeStack.StackPage.PushFree: does not model the overflow of the page that holds the stack.
- RangeStack.NeverHandedOutTwice: a run has no push onto a full page and no find of zero pages from a stack with one entry, which takes the pointer below the stack (`RangeStack.PointerLeavesIff`).
- Shootdown.InvalidStack.RemindToMarkFree: with 99 entries the code writes one slot behind the array; that write is not modelled.
- ShootdownRuns.ShootdownSafeIff: the free-list push under `invld_lock` is atomic with respect to `vmm_malloc`, and the window page, which each core caches for itself, is excluded.
- Semaphore.SemGroup.Semop: thread id 0, which no thread has, is excluded; `semget` and `semctl` are not modelled.
- Semaphore.SemopById: an unknown group is a null pointer that the code follows; it is excluded.
- ReadersWriters.ExclusiveIff: the bytes copied and the file pointer are not modelled, only who copies when; the change and the test of `read_count` are steps of their own.
- BlockFile.Node.WriteToNode: new pages read as zero; a failing `vmm_malloc` and sums beyond 2^63 are not modelled.
- MountedRamfs.MountPoint.Pread: after a directory was enlarged `DirectoryScan` speaks about its file, not the methods of the mount point. `pwrite` is the write to the node that `stat` finds.
- MountedRamfs.MountPoint.Create: last names longer than 255 characters, which overflow the node, are not modelled, and a mount holds fewer than 8053 nodes, so that every directory fits into a file. The record layout follows a 16-bit `d_ino` of newlib, which is not part of this model.
- Initrd.LoadArchive: sizes that start with blanks or a sign and names that fill all 100 characters are not modelled.
- ElfImage.GetSymByName: tables with cyclic chains, in which the code loops for ever, are not modelled, nor is the 32-bit layout of the ELF files.
- Relocation.ResolveReferences: what the tables in memory say is given as ghost values that the proof keeps in step with the bytes.
- Calendar.GmtimeR: negative times are not modelled.
- Heap.KernelHeap.Kmalloc: the call that has to grow the heap returns 0 here, `vheap_enlarge` is not modelled; a split that leaves less than a header is excluded, because its writes would meet another header.
- MessageQueue.MessageQueues.Msgget: queues are never removed, `msgctl` does nothing in the code either.
- Scheduler.OneTurnEach: one core; moving threads between cores is not modelled, nor is the wrap of the 32-bit thread counter.
- Scheduler.Cpu.CreateThread: the choice of a core and the building of the thread's state and stack are not modelled.
- The scheduler, the semaphores, the message queues and the mount point hold their lists as the chunk values that the class `ChunkList.AList` is proved to keep, not as linked chunks.
- `vmm_free`, `vmm_share_to_user` and `vmm_delcontext`: their units and loops do not match their intent.
- The spinlocks: a locked section is atomic by assumption.
- Choosing a mount point by prefix: one mount at the root.
- The message loop of the file system daemon, `hlib_open`, and descriptors that do not share their semaphores.
- Interrupts, devices, boot code, console output and the C library.
