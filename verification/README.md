# Morion kernel: a Dafny model

This project models the resource and blocking machinery of the Morion microkernel and proves what it keeps over
every run: who owns each physical frame and when one is lost, what a loaded program sees, that no frame is
writable here and executable there, that no task stays blocked on a message or interrupt that is already there,
nor wakes too early, how long a task can wait, that every interrupt is kept until its owner takes it, whom a
reply reaches, where capabilities can come from and go to, and that handles are never copied. Three
self-contained pieces come with it: the boot Merkle root, the kernel terminal's UTF-8 line buffer and the kernel
log ring.

`dafny verify dfyconfig.toml` checks everything.

## How the model is built

- Every piece of kernel state has a value: `Alloc` (bitmap, counts, pinned ranges), `Mem` (allocator, frame
  contents, PML4 of each domain), `Sched`, `Irq`, mailboxes, slot tables, and `Kernel`, which holds the last
  four together. Specification functions say what one operation does to such a value, and the theorems are
  about those functions, over all states and all runs.
- The operations themselves are methods with the source's loops, on arrays and fields changed in place:
  `FrameAllocator`, `PageMachine`, `Scheduler`, `IrqTables`, `CapTables`, `KernelMachine`, `Terminal`, `LogRing`,
  and the parser in `Elf`. Each is proved equal to its specification function on the value of the object.
- A kernel panic halts the machine. It is a `None`, a `Halt`, a `Panic` or a false result, and the memory theorems
  speak of steps that do not panic. Runs of the scheduler, and of scheduler, mailboxes, pagers and interrupts
  together, are proved never to panic (`RunSafe`, `NoPanic`).
- A run of the whole kernel is polite when it keeps to what the kernel relies on without checking it: the idle task
  only idles, the boot pager, if it may start programs, destroys neither itself nor the idle task's domain, no task is
  started in a domain that waits to be reclaimed, and domain ids stay below the interrupt wait keys. What anybody else
  tries to destroy is not restricted (`OnlyBootPager`), and without Spawn in the boot pager's row neither is the boot
  pager (`ModestIsGood`).
- Sizes are symbolic: number of frames, table of counts, task slots, log capacity, history lines.
- The kernel is a release build, so the 8-bit reference count wraps at 256.
- A capability check is the `granted` argument of a memory step, and a lookup in the capability rows in `KernelSteps`.
- System calls run with interrupts off, so a kernel path between two block points is one atomic step. What a
  blocked task will do when it runs again is kept in its `resume` field, which stands for its kernel stack.
- A 64-bit vector mask is represented by the set of its one bits.

Module by module: `Frames`, `FrameAllocator` (frames); `Paging`, `Teardown`, `Ownership`, `DomainMemory`,
`MemorySteps`, `MemoryRuns`, `FrameLeaks`, `WriteExecute`, `KernelHalf`, `PageCalls`, `PageMachine` (address spaces);
`Elf`, `ElfFile`, `Loader`, `LoadedImage`, `Spawn`, `SpawnFailure`, `RestartMemory`, `FrameNeeds`, `LoadFrames`,
`SpawnVerdict` (programs); `Scheduling`, `SchedulerRuns`, `Scheduler` (tasks); `Mailboxes`, `Interrupts`, `IrqTables`,
`KernelSteps`, `KernelSafety`, `KernelInvariant`, `KernelRuns`, `KernelPanics`, `KernelTiming`, `KernelFlags`,
`KernelSleep`, `KernelReplies`, `KernelEffects`, `KernelCalls`, `KernelCaps`, `ReclaimExample`, `SelfDestroy`,
`KernelMachine` (blocking and waking); `Slots`, `Capabilities`, `Handles`, `CapTables` (capabilities); `Merkle`;
`Utf8`, `Terminal`; `LogRing`; `Ring`, `Wrappers` (shared).

## What is false of the code, and exactly when it holds

- Frame accounting survives SYS_SHARE_PAGE exactly when the call maps nothing new, or the address is page
  aligned, the frame is counted and its count is below 255 (`SharePageExact`). Sharing an image page breaks it,
  from boot, in four operations (`SharedImagePageBreaks`).
- It survives SYS_MAP_MMIO exactly when the mapped frame is device memory (`MapMmioExact`), and SYS_UNMAP of an
  address outside user space, which the kernel does not refuse, exactly when the frame mapped there is not counted
  (`KernelUnmapExact`).
- SYS_UNMAP gives a frame back exactly when it was counted once. A page without a count (image, stack, or allocated
  while the count table was full) leaves its frame in use and mapped nowhere (`UnmapReturns`), so a run loses no frame
  exactly when each page it unmaps or replaces is counted, device memory or reserved (`RunLeakExact`); creating a
  domain, loading a page and unmapping it loses one (`UnmappedImagePageLeaks`).
- No frame is writable in one domain and executable in another as long as shared pages are not executable and uncached
  mappings do not hit executable frames (`StepWxExact`, `RunWxExact`); every run within the accounting guards keeps to
  that (`RunWx`).
  Sharing a loaded code page makes it writable for the other domain (`SharedImagePageWritable`).
- It survives destroying or resetting a domain exactly when each of the domain's uncached pages is pinned or
  outside the managed range (`DestroyExact`, `ResetExact`).
- A load into an empty domain panics exactly when the free frames run out between a page and its tables, or a stack
  page is taken by a segment while a frame is left, before anything is refused (`LoadExact`). With frames to spare that
  is exactly when no page is both writable and executable and some segment reaches into the stack (`LoadVerdict`).
- SYS_DOMAIN_DESTROY keeps the kernel's invariant exactly when it is refused or aims at neither the caller's domain nor
  the idle task's (`DestroyCallExact`). Over every run only the boot pager, which is its own pager, can get past the
  check with such a target, and only while it holds Spawn (`OnlyBootPager`). If it does, the next tick panics
  (`SelfDestroyPanics`, `SupervisorDestroysItself`).
- A restart that fails after its image was accepted is not rolled back: the old pages are gone. No frame is lost and
  nobody else notices (`FailedRestartLeaves`).
- Deferred reclaim stays away from live tasks exactly when no task was started in a domain that is waiting to be
  reclaimed (`ReviveExact`); an exit, a restart of the same domain and a tick lose the new task
  (`RestartedChildIsLost`).
- The terminal line keeps to the screen width exactly when each character is no wider than the screen
  (`AppendFits`); one column is not enough (`OneColumnOverflows`).
- Equal Merkle roots of different images come with a collision, whatever the hash and the images, exactly when the
  chunk size is below 64 (`ChunkSizeExact`). For larger chunks they still do when the images have equally many chunks,
  or none of 64 bytes (`RootCollision`); otherwise there need not be one (`SizeMatters`).
- Successive log reads return each byte once and in order exactly when the first one starts at an offset still held or
  at most one of them asks for anything (`ReadsExact`); while the log grows, exactly when the reader is never more than
  the ring's capacity behind (`FollowExact`).
- A set of domains keeps a capability to itself exactly when every program that is started has both file services on
  its own side of the border and is inside if the capability is one it starts with (`KernelConfined`).
- A page fault reaches the pager exactly when the pager's mailbox has room; otherwise the task blocks all the same
  (`FaultTold`).
- The reply a call returns, however often it wakes and waits again, was sent after its request exactly when nothing
  from the target was queued before (`CallReplyExact`).

## Where the code and its comments differ

The code is followed in each case.

- `kernel/src/memory/frame_allocator.rs:338` says SYS_ALLOC_PAGE returns 0 for a mapped address; the code panics in
  `map_to`.
- `kernel/src/memory/paging.rs:442` says the PML4 is reclaimed too; `free_user_space` leaves that to its caller.
- `kernel/src/ipc.rs:215` counts with 500 ticks a second; `TARGET_FREQ` is 1000.
- `kernel/src/elf.rs:151` exempts segments without file bytes from the file bound; the code refuses them too when their
  offset lies past the end.
- `kernel/src/cap.rs:404` speaks of 16 slots; `CAP_SLOTS` is 32.
- `kernel/src/domain.rs:109-111` says a domain cannot destroy itself; `kernel/src/pager.rs:32-38` makes the boot pager
  its own pager, and then the check lets it.

## Model

| member | source | states |
|---|---|---|
| `Frames.PinCovers` | kernel/src/memory/frame_allocator.rs:38-56 | pinning a byte range protects exactly the frames that overlap it |
| `FrameAllocator.Bitmap.Write` | kernel/src/memory/frame_allocator.rs:64-80 | writing one packed bit changes that bit and no other |
| `FrameAllocator.FrameAllocator.IsPinned` | kernel/src/memory/frame_allocator.rs:50-56 | true exactly when some registered range holds the address |
| `FrameAllocator.FrameAllocator.PinRange` | kernel/src/memory/frame_allocator.rs:38-47 | registers the frame-aligned range, or nothing when the table is full |
| `FrameAllocator.FrameAllocator.ReserveFrame` | kernel/src/memory/frame_allocator.rs:198-206 | marks a managed frame used and keeps the free count equal to the number of clear bits |
| `FrameAllocator.FrameAllocator.AllocateFrame` | kernel/src/memory/frame_allocator.rs:209-220 | takes the lowest free frame; fails exactly when none is free; the free count stays exact |
| `FrameAllocator.FrameAllocator.AllocateFrames` | kernel/src/memory/frame_allocator.rs:226-252 | takes the lowest-starting run of `count` free frames and marks exactly those; fails exactly when there is no such run |
| `FrameAllocator.FrameAllocator.FreeFrame` | kernel/src/memory/frame_allocator.rs:255-267 | frees a managed frame unless it is pinned; the free count stays exact |
| `FrameAllocator.FrameAllocator.IncRef` | kernel/src/memory/frame_allocator.rs:285-301 | raises a live count modulo 256, claims the first empty slot for a new address, or does nothing when the table is full |
| `FrameAllocator.FrameAllocator.DecRef` | kernel/src/memory/frame_allocator.rs:304-318 | lowers the count, empties the slot at zero, and reports exactly the last reference |
| `FrameAllocator.FrameAllocator.IsTracked` | kernel/src/memory/frame_allocator.rs:321-327 | true exactly when the address has a live count |
| `FrameAllocator.FrameAllocator.ReleaseUserFrame` | kernel/src/memory/frame_allocator.rs:340-348 | a counted frame loses one reference and is freed at the last, any other frame is freed at once |
| `Frames.ReleaseIsDrop` | kernel/src/memory/frame_allocator.rs:340-348 | releasing one frame is the one-frame case of releasing a whole set |
| `Frames.DropTwice` | kernel/src/memory/frame_allocator.rs:340-348 | releasing two sets in turn is releasing their union once, unless a counted frame is in both |
| `Paging.FlagsFor` | kernel/src/memory/paging.rs:318-326 | no permission is both writable and executable |
| `Paging.PathInjective` | kernel/src/memory/paging.rs:394-397 | two user addresses have the same table indices exactly when they are on the same page |
| `Paging.ResolveIsWalk` | kernel/src/memory/paging.rs:389-425 | the resolver returns the frame at the end of the four-level walk plus the page offset |
| `Paging.ResolveHuge` | kernel/src/memory/paging.rs:389-417 | below a 2 MiB entry the resolver returns the frame the last index selects among the entry's 512 |
| `Paging.MapToOk` | kernel/src/memory/paging.rs:332-357 | mapping writes exactly one page, keeps the table structure, takes one frame for each missing table, and panics exactly when the page is mapped or there are fewer free frames than missing tables |
| `Paging.UnmapOk` | kernel/src/memory/paging.rs:430-440 | unmapping empties exactly that page and fails exactly when it is not mapped |
| `MemorySteps.MapResolves` | kernel/src/memory/paging.rs:332-425 | after a map every address of the page resolves into the new frame, and every other address of every domain resolves as before |
| `MemorySteps.UnmapResolves` | kernel/src/memory/paging.rs:389-440 | after an unmap no address of the page resolves, and every other address of every domain resolves as before |
| `Teardown.FreeTableEffect` | kernel/src/memory/paging.rs:461-495 | the nested loops release every page below once, free every table below once, and empty exactly those tables |
| `Teardown.HugeFreed` | kernel/src/memory/paging.rs:472-481 | a 2 MiB entry gives back each of its 512 frames once and is empty then |
| `DomainMemory.FreeUserSpaceEffect` | kernel/src/memory/paging.rs:452-498 | emptying a user space drops one reference to each of its pages, frees each of its tables and touches no other frame |
| `DomainMemory.PagesExact` | kernel/src/memory/paging.rs:452-498 | the released pages are exactly the frames the domain maps |
| `DomainMemory.DestroyEffect` | kernel/src/domain.rs:112-123 | destroying frees exactly the PML4, the user tables, the uncounted pages and the counted pages mapped nowhere else |
| `DomainMemory.DestroyExact` | kernel/src/domain.rs:112-132 | the accounting of all other domains survives exactly when the domain's device pages are pinned or unmanaged; their mappings stay |
| `DomainMemory.ResetExact` | kernel/src/domain.rs:142-152 | the same for emptying a domain in place, which leaves it with no page |
| `DomainMemory.CreateOk` | kernel/src/domain.rs:64-73 | a new domain takes an empty slot and a free frame, maps nothing and shares no user table with anybody |
| `SpawnVerdict.CreateCosts` | kernel/src/domain.rs:64-73 | a new domain takes the lowest slot that is not live and one frame; creating panics exactly when none is free |
| `MemorySteps.AllocPageKeeps` | kernel/src/syscall.rs:429-448 | SYS_ALLOC_PAGE and SYS_MAP_ANON keep the frame accounting |
| `MemorySteps.UnmapPageKeeps` | kernel/src/syscall.rs:488-500 | SYS_UNMAP of a user address keeps it |
| `MemorySteps.KernelUnmapExact` | kernel/src/memory/paging.rs:430-440 | SYS_UNMAP of any other address keeps it exactly when the frame mapped there is not counted |
| `MemorySteps.SharePageExact` | kernel/src/syscall.rs:449-487 | SYS_SHARE_PAGE keeps it exactly under its guard |
| `MemorySteps.MapMmioExact` | kernel/src/syscall.rs:620-632 | SYS_MAP_MMIO keeps it exactly for device memory |
| `PageCalls.AllocVerdict` | kernel/src/syscall.rs:429-448 | SYS_ALLOC_PAGE and SYS_MAP_ANON return 0 and change nothing exactly when they are refused or no frame is free, and panic exactly when there is no such domain or address, the page is mapped, or the frames left do not cover its missing tables |
| `PageCalls.AllocEffect` | kernel/src/syscall.rs:501-535 | a call that returns 1 put the lowest free frame at a page that was empty, writable and not executable, counted once if the table had room; all its addresses reach that frame, SYS_MAP_ANON left 4096 zero bytes in it, and every other page of every domain keeps entry and contents |
| `PageCalls.UnmapEffect` | kernel/src/syscall.rs:488-500 | SYS_UNMAP panics exactly without such a domain or address; for a user page it returns 0 and changes nothing exactly when the page is empty, else it empties that page, drops one reference and leaves every other page its entry and contents |
| `PageCalls.ShareEffect` | kernel/src/syscall.rs:449-487 | SYS_SHARE_PAGE returns 0 exactly when it is refused or the caller's page is empty; otherwise the target's page holds the caller's frame, one reference more if it did not before, and every other page keeps entry and contents |
| `PageCalls.MmioEffect` | kernel/src/syscall.rs:620-632 | SYS_MAP_MMIO puts exactly the asked frame at an empty page, uncached, writable and not executable, and counts nothing |
| `MemorySteps.LoadPageKeeps` | kernel/src/exec.rs:111-120 | a loader page keeps it |
| `MemoryRuns.StepExact` | kernel/src/syscall.rs:429-535 | one memory operation keeps the accounting exactly when its guard holds |
| `MemoryRuns.RunExact` | kernel/src/memory/frame_allocator.rs:269-348 | over every run of memory operations, every state is consistent exactly when every operation met its guard; that the kernel half has tables of its own is taken as given here and proved by `RunCovered` |
| `KernelHalf.RunCovered` | kernel/src/domain.rs:185-214 | no operation of a run turns a page table of the kernel half into a user table, a user page or a free frame, so even SYS_UNMAP of a kernel address stays out of the user tables |
| `KernelHalf.RunAccounting` | kernel/src/memory/frame_allocator.rs:269-348 | from a consistent state with such a kernel half, every state of a run is consistent exactly when every operation meets its guard |
| `KernelHalf.CreateCopies` | kernel/src/domain.rs:185-214 | a kernel address is translated in a new domain, entry by entry, as it is by the tables that were loaded |
| `MemoryRuns.ConsistentMeaning` | kernel/src/memory/frame_allocator.rs:329-339 | no table or page of a live domain is free; a count is the number of mappings, all at one address; other pages are mapped once; tables belong to one place |
| `MemoryRuns.SharedImagePageBreaks` | kernel/src/syscall.rs:475-481 | sharing an uncounted image page breaks the accounting from boot |
| `FrameLeaks.UnmapReturns` | kernel/src/syscall.rs:488-500 | after SYS_UNMAP a frame is free exactly when it was counted once, still mapped exactly when it was counted more often, and otherwise in use and mapped nowhere |
| `FrameLeaks.StepLeakExact` | kernel/src/memory/frame_allocator.rs:269-348 | a memory operation within its accounting guard loses no frame exactly when the page it unmaps or replaces is counted, device memory or reserved |
| `FrameLeaks.RunLeakExact` | kernel/src/memory/frame_allocator.rs:269-348 | the same for whole runs: in every state each frame in use is a table, a mapped page, device memory, pinned or reserved |
| `FrameLeaks.UnmappedImagePageLeaks` | kernel/src/syscall.rs:488-500 | a run from boot that loses a frame |
| `WriteExecute.StepWxExact` | kernel/src/memory/paging.rs:300-357 | a memory operation keeps every frame from being writable at one page and executable at another exactly when it shares no executable page and maps no executable frame uncached |
| `WriteExecute.RunWx` | kernel/src/memory/paging.rs:300-357 | every run within the accounting guards keeps it, across all domains |
| `WriteExecute.RunWxExact` | kernel/src/memory/paging.rs:300-357 | over every run, as long as frames are accounted for and one operation longer, the property holds in every state exactly when no operation shares an executable page or maps an executable frame uncached |
| `WriteExecute.SharedImagePageWritable` | kernel/src/syscall.rs:441-486 | a run from boot that makes a loaded code page writable for another domain |
| `PageMachine.PageMachine.NextTable` | kernel/src/memory/paging.rs:342-344 | follows or creates the next table |
| `PageMachine.PageMachine.MapTo` | kernel/src/memory/paging.rs:342-356 | the creating walk and the entry write do what the value model's `MapTo` does |
| `PageMachine.PageMachine.UnmapFrom` | kernel/src/memory/paging.rs:430-440 | the reading walk and the entry clear do what the value model's `Unmap` does |
| `PageMachine.PageMachine.FreePt` | kernel/src/memory/paging.rs:482-489 | the inner loop releases every page of a page table |
| `PageMachine.PageMachine.FreePd` | kernel/src/memory/paging.rs:467-492 | the middle loop, with its 2 MiB branch |
| `PageMachine.PageMachine.FreeUserSpace` | kernel/src/memory/paging.rs:452-498 | the whole teardown |
| `PageMachine.PageMachine.Create` | kernel/src/domain.rs:64-73 | slot search, fresh PML4 and the copy loop that skips the user entry |
| `PageMachine.PageMachine.Destroy` | kernel/src/domain.rs:112-123 | the memory part of destroying; false for a domain that does not exist |
| `PageMachine.PageMachine.Reset` | kernel/src/domain.rs:142-152 | the memory part of resetting |
| `PageMachine.PageMachine.AllocPage` | kernel/src/syscall.rs:429-448 | both allocating system calls on the machine, equal to the step that `AllocVerdict` and `AllocEffect` describe |
| `PageMachine.PageMachine.SharePage` | kernel/src/syscall.rs:449-487 | idempotent for the same frame, replaces another one, counts the shared one |
| `PageMachine.PageMachine.UnmapPage` | kernel/src/syscall.rs:488-500 | unmaps, drops a reference, frees at the last |
| `Elf.Parse` | kernel/src/elf.rs:72-194 | total; accepts exactly the images that satisfy `Accepts`, and returns their entry and loadable headers in order, which `ParseWritten` ties to the bytes |
| `Elf.ParseSegment` | kernel/src/elf.rs:139-170 | a loadable header is refused exactly when it is W+X, leaves the file, has more file than memory, or leaves user space |
| `Elf.AcceptedImageOk` | kernel/src/elf.rs:72-194 | an accepted image has 1 to 32 segments inside file and user space, none W+X, with the entry inside a segment |
| `ElfFile.ParseWritten` | kernel/src/elf.rs:72-194 | parsing inverts an independent writer: for every entry, list of segments, permissions, gap and body, the written file parses to exactly that entry and those segments in order |
| `ElfFile.AcceptedBytes` | kernel/src/elf.rs:72-116 | an accepted file has, byte for byte, the magic, class, byte order, version, type, machine and header size, and 1 to 32 program headers |
| `Loader.BudgetBounds` | kernel/src/exec.rs:32-39 | the loops visit at most one page per segment more than the budget charges |
| `Loader.BudgetExact` | kernel/src/exec.rs:32-39 | the budget charges 8 stack pages and, for each segment, the least number of pages that is more than its memory |
| `Loader.WorkExact` | kernel/src/exec.rs:106-123 | the page loops visit exactly the pages some segment covers |
| `Loader.CopyOver` | kernel/src/exec.rs:180-198 | a page gets the segment's file bytes where they reach it and keeps the rest |
| `PageMachine.PageMachine.PagePerm` | kernel/src/exec.rs:158-175 | the accumulating loop computes the union of the covering segments, and refuses W with X |
| `PageMachine.PageMachine.MapPages` | kernel/src/exec.rs:106-123 | the first pass with its nested loops |
| `PageMachine.PageMachine.CopyPages` | kernel/src/exec.rs:126-135 | the second pass with its nested loops |
| `PageMachine.PageMachine.MapStack` | kernel/src/exec.rs:138-150 | the stack loop |
| `PageMachine.PageMachine.MapImage` | kernel/src/exec.rs:104-152 | both passes and the stack, with refusal and panic told apart |
| `LoadedImage.LoadPageEffect` | kernel/src/exec.rs:111-120 | one zeroed page appears; nothing any domain maps, nor its contents, changes otherwise |
| `LoadedImage.CopyPagesOk` | kernel/src/exec.rs:126-135 | the second pass always goes through, and every address sees exactly the copies |
| `LoadedImage.FileByteLast` | kernel/src/exec.rs:126-135 | the byte at an address is that of the last segment whose file bytes reach it, zero if none does |
| `LoadedImage.LoadedImageOk` | kernel/src/exec.rs:104-198 | for every user address: mapped exactly when a segment covers its page or it is stack, with the union permission and the file's byte; other domains keep pages and contents |
| `LoadedImage.LoadedPermissions` | kernel/src/exec.rs:158-175 | a loaded page can be written exactly if it is stack or a writable segment reaches it, and executed exactly if it is not stack and an executable one does |
| `LoadFrames.LoadExact` | kernel/src/exec.rs:104-152 | however few frames are free, a load succeeds exactly when there is no W^X conflict, no segment in the stack, and a frame for each distinct page and page table; it panics exactly when frames run out between a page and its tables or a stack page is taken while one is left, before a refusal |
| `FrameNeeds.NeedCounts` | kernel/src/memory/paging.rs:332-357 | the frames a list of pages needs, in whatever order, are its distinct pages and the distinct tables above them |
| `Spawn.LoadVerdict` | kernel/src/exec.rs:104-152 | the verdict when four frames are free for each visited page: refused exactly on a W^X conflict, else a panic exactly when a segment reaches into the stack |
| `SpawnFailure.DestroyRestores` | kernel/src/exec.rs:59-62 | destroying a half-built domain restores the allocator exactly |
| `SpawnFailure.FailedSpawnRestores` | kernel/src/exec.rs:29-64 | a spawn that fails, for any reason, leaves allocator, mappings and page contents as they were |
| `SpawnVerdict.SpawnExact` | kernel/src/exec.rs:29-64 | a program starts exactly when its file is accepted and within 4096 pages, there is a frame for the domain, its distinct pages and tables fit into the rest, nothing is writable and executable or in the stack, and a task slot is free; the kernel panics exactly when there is no frame for the domain or the frames run out inside a mapping |
| `SpawnFailure.SpawnedSees` | kernel/src/exec.rs:29-64 | a spawn that succeeds gives the new domain exactly its file's image and a stack, within the page bound, and leaves every other domain's pages and their contents alone |
| `SpawnFailure.ReloadSees` | kernel/src/exec.rs:72-94 | the same for loading into an existing domain whose user space was emptied |
| `RestartMemory.FailedRestartLeaves` | kernel/src/syscall.rs:346-366 | a restart that fails: a bad image changes nothing; otherwise the old pages are gone, what is left is on frames a destroy gives back, the accounting holds, and no other domain's pages or contents change |
| `SpawnVerdict.RestartExact` | kernel/src/syscall.rs:346-366 | a restart succeeds exactly when the file is accepted and within budget, fits into the frames free once the old image is gone, breaks no rule and finds a task slot; it panics exactly when those frames run out inside a mapping |
| `Scheduling.TicksCover` | kernel/src/scheduler/mod.rs:98-102 | a wait is rounded up to whole ticks, as far as 64 bits hold it, and is exactly its milliseconds at 1000 ticks a second |
| `Scheduling.ReadyFromFirst` | kernel/src/scheduler/mod.rs:173-183 | the search returns a ready task with nothing ready before it in ring order |
| `Scheduler.Scheduler.NextReady` | kernel/src/scheduler/mod.rs:173-183 | the modular search loop |
| `Scheduler.Scheduler.ScheduleNext` | kernel/src/scheduler/mod.rs:244-278 | parks the current task, runs the next ready one, fails exactly when there is none |
| `Scheduler.Scheduler.Tick` | kernel/src/scheduler/mod.rs:289-308 | counts, wakes what expired, preempts |
| `Scheduler.Scheduler.WakeExpired` | kernel/src/scheduler/mod.rs:295-305 | the loop wakes exactly the expired sleepers and timed waiters; `NotEarly` says that nobody runs before |
| `Scheduler.Scheduler.Sleep` | kernel/src/scheduler/mod.rs:321-335 | records the wake time and parks the caller |
| `Scheduler.Scheduler.Block` | kernel/src/scheduler/mod.rs:371-401 | records key and deadline, zero without a timeout, and parks the caller |
| `Scheduler.Scheduler.WakeOne` | kernel/src/scheduler/mod.rs:406-416 | wakes the first task blocked on the key and no other |
| `Scheduler.Scheduler.RemoveDomain` | kernel/src/scheduler/mod.rs:430-446 | removes the domain's tasks and wakes everybody waiting for it |
| `Scheduler.Scheduler.LiveTasks` | kernel/src/scheduler/mod.rs:453-464 | counts the domain's tasks that are not terminated |
| `Scheduler.Scheduler.ReapTerminated` | kernel/src/scheduler/mod.rs:474-490 | removes exactly the domain's terminated tasks |
| `Scheduler.Scheduler.Spawn` | kernel/src/scheduler/mod.rs:139-170 | a fresh task in the first free slot, or nothing when the table is full |
| `SchedulerRuns.RunSafe` | kernel/src/scheduler/mod.rs:244-308 | over every run with a persistent idle task: no panic, and exactly one running task, the current one |
| `SchedulerRuns.ScheduleCloser` | kernel/src/scheduler/mod.rs:244-278 | each call runs a ready task or brings the ring position strictly closer to it |
| `SchedulerRuns.ReadyRuns` | kernel/src/scheduler/mod.rs:173-183 | a ready task runs within its ring distance, at most n - 1 calls, whatever the others do |
| `SchedulerRuns.TimedRuns` | kernel/src/scheduler/mod.rs:285-308 | a sleeping or timed task with deadline D runs by tick D + n - 1 |
| `SchedulerRuns.TimedBlockPending` | kernel/src/scheduler/mod.rs:389-401 | a block with a timeout has a deadline that is nonzero and ahead |
| `SchedulerRuns.RunDeadlines` | kernel/src/scheduler/mod.rs:295-446 | over every run, however a task was woken, only blocked tasks have a deadline |
| `KernelSleep.StaysParked` | kernel/src/scheduler/mod.rs:285-308 | a kernel step leaves a sleeping or blocked task exactly as it was unless its time has come, its key is woken or its domain is destroyed |
| `KernelSleep.NotEarly` | kernel/src/scheduler/mod.rs:285-308 | over every kernel run nobody is woken early: before its tick a sleeper still sleeps, and a timed or untimed waiter still waits, unless an event destroyed its domain or woke the key it waits on |
| `KernelSleep.SleepsLongEnough` | kernel/src/scheduler/mod.rs:321-335 | after SYS_SLEEP(ms) the caller sleeps in every state of every run in which fewer ticks than cover its milliseconds have passed, unless its domain was destroyed |
| `KernelSleep.SleeperWakes` | kernel/src/scheduler/mod.rs:285-335 | and it runs again by that tick plus the number of task slots less one |
| `KernelSleep.RunsInTime` | kernel/src/scheduler/mod.rs:173-183 | in every kernel run a ready or timed task starts before the clock has passed its bound, unless its domain is destroyed |
| `Mailboxes.TakeIsOldest` | kernel/src/ipc.rs:252-257 | selective removal takes the sender's oldest message and leaves other senders' order alone |
| `Mailboxes.RunDelivers` | kernel/src/ipc.rs:82-309 | consumed then queued equals pushed, per sender and receiver, over every run of mailbox operations |
| `Interrupts.TakeConsumes` | kernel/src/irq.rs:79-96 | a vector taken is the lowest of the mask that is pending and the caller's, and its flag alone is consumed |
| `IrqTables.IrqTables.TakePendingAny` | kernel/src/irq.rs:79-96 | the scanning loop |
| `IrqTables.IrqTables.SetAnyMask` | kernel/src/irq.rs:101-107 | records the mask, or refuses a domain beyond the table |
| `IrqTables.IrqTables.ClearAnyMask` | kernel/src/irq.rs:110-114 | clears the mask |
| `IrqTables.IrqTables.RemoveDomain` | kernel/src/irq.rs:154-168 | the three clearing loops |
| `KernelMachine.KernelMachine.Deliver` | kernel/src/ipc.rs:239-243 | push and wake, as `call` and `reply` do without a capacity test |
| `KernelMachine.KernelMachine.DeliverCapped` | kernel/src/ipc.rs:124-149 | a full mailbox refuses and wakes nobody |
| `KernelMachine.KernelMachine.ReceiveRound` | kernel/src/ipc.rs:155-176 | takes and returns the oldest message and notes the reply target, which `RepliesToLast` follows to the reply, or blocks on the own domain |
| `KernelMachine.KernelMachine.CallStart` | kernel/src/ipc.rs:216-250 | refuses without the capability or a live target, else sends and blocks with the poll timeout |
| `KernelMachine.KernelMachine.CallRound` | kernel/src/ipc.rs:249-268 | takes and returns the target's oldest message, fails when it is dead, or waits again |
| `KernelMachine.KernelMachine.SetPending` | kernel/src/irq.rs:120-144 | sets the flag and wakes, in order, every domain whose mask holds the vector, as the step of `MsiExact` |
| `KernelMachine.KernelMachine.IrqMaskOk` | kernel/src/syscall.rs:372-386 | true exactly when every vector of the mask is permitted and registered |
| `KernelMachine.KernelMachine.IrqWait` | kernel/src/syscall.rs:591-613 | checks the mask, takes and returns a pending vector, or records the mask and blocks |
| `KernelMachine.KernelMachine.IrqWaitDone` | kernel/src/syscall.rs:614-617 | forgets the mask and returns the lowest pending vector of it, if one came |
| `KernelMachine.KernelMachine.Register` | kernel/src/syscall.rs:547-566 | registers a PIC line or a vector the caller may use, refuses exception vectors |
| `KernelMachine.KernelMachine.Destroy` | kernel/src/domain.rs:112-132 | clears every row of a live domain and removes its tasks |
| `KernelMachine.KernelMachine.ReclaimPending` | kernel/src/domain.rs:173-183 | destroys everything in the queue, last in first |
| `KernelMachine.KernelMachine.ClockTick` | kernel/src/scheduler/mod.rs:285-308 | reclaim, then the scheduler's tick |
| `KernelMachine.KernelMachine.Exit` | kernel/src/scheduler/mod.rs:532-554 | queues the domain exactly when its last task of a runtime domain exits, and terminates the caller |
| `KernelMachine.KernelMachine.Restart` | kernel/src/syscall.rs:346-366 | only a live domain without live tasks is restarted, with an empty mailbox and its terminated tasks reaped; reports success exactly when the image loads and a task slot is free |
| `KernelInvariant.MsiOk` | kernel/src/irq.rs:120-144 | when a flag goes up, everybody blocked for it is woken |
| `KernelFlags.MsiExact` | kernel/src/irq.rs:120-144 | an interrupt of a registered vector raises exactly its flag and readies exactly the tasks waiting for it; any other interrupt does nothing |
| `KernelFlags.FlagExact` | kernel/src/irq.rs:79-144 | after any kernel step a flag is up exactly if the interrupt of that registered vector came, or it was up and the step did not take it |
| `KernelFlags.FlagFalls` | kernel/src/irq.rs:79-96 | over every run a flag goes down only in a step that hands the vector, pending, to a task of the domain it is registered to |
| `KernelFlags.FlagsConserved` | kernel/src/irq.rs:79-144 | over every run an interrupt is handed out at most once, and one that came is handed out or still pending |
| `KernelFlags.InterruptArrives` | kernel/src/syscall.rs:591-617 | while its registration stays, a task blocked for a vector returns, within as many ticks as there are tasks after the interrupt, with that vector or a lower one of its mask |
| `KernelInvariant.DeliverOk` | kernel/src/ipc.rs:124-149 | nobody stays blocked in receive on a mailbox that was filled |
| `KernelInvariant.IrqWaitOk` | kernel/src/syscall.rs:591-613 | a task blocks for interrupts only when none of its vectors is pending |
| `KernelFlags.IrqWaitExact` | kernel/src/syscall.rs:591-613 | SYS_IRQ_WAIT consumes a pending vector, returns at once on a bad mask or domain, and otherwise blocks the caller with its mask, its own wait key and the deadline that its milliseconds give |
| `KernelInvariant.RegisterOk` | kernel/src/irq.rs:67-69 | a registration makes no blocked task miss a pending vector |
| `KernelEffects.RegisterExact` | kernel/src/syscall.rs:547-566 | with the capability, and only then, the caller becomes the owner of exactly that PIC line or vector; exception vectors are refused |
| `KernelEffects.MaskRefused` | kernel/src/syscall.rs:372-386 | a poll or wait that asks for one vector without capability or registration is refused and changes nothing |
| `KernelEffects.WaitForgotten` | kernel/src/syscall.rs:614-617 | back from an interrupt wait the caller's mask is empty, and the others' are as they were |
| `KernelEffects.ResumeReturns` | kernel/src/ipc.rs:155-268 | a task that was woken comes back to user code or blocks again in the same receive or call |
| `KernelInvariant.StepOk` | kernel/src/syscall.rs:389-617 | every kernel step keeps the blocking invariant, exactly one running task, at most one live task per domain, and that only the idle task's pager may be its own pager |
| `KernelInvariant.RunOk` | kernel/src/syscall.rs:389-617 | so does every run |
| `SelfDestroy.DestroyCallExact` | kernel/src/syscall.rs:868-878 | SYS_DOMAIN_DESTROY keeps the invariant exactly when it is refused or aims at neither the caller's domain nor the idle task's |
| `SelfDestroy.OnlyBootPager` | kernel/src/pager.rs:32-47 | in every state of every run only the domain that pages the idle task, while it holds Spawn, can destroy itself or the idle task's domain |
| `SelfDestroy.ModestIsGood` | kernel/src/domain.rs:109-111 | when that domain does not hold Spawn, every run is covered whatever anybody tries to destroy |
| `SelfDestroy.SelfDestroyPanics` | kernel/src/scheduler/mod.rs:244-268 | a caller that destroyed its own domain makes the next tick panic |
| `SelfDestroy.SupervisorDestroysItself` | kernel/src/syscall.rs:868-878 | a state in which exactly that happens |
| `KernelRuns.NoLostWakeup` | kernel/src/syscall.rs:591-617 | in every state of every run, a task blocked in receive has an empty mailbox, and one blocked for interrupts has no pending vector in its mask that it registered |
| `KernelRuns.RunDeliversExactly` | kernel/src/ipc.rs:82-309 | over every kernel run, per sender and receiver: consumed then queued is what was pushed since the mailbox was reset |
| `KernelReplies.ConsumedExact` | kernel/src/ipc.rs:155-204 | a receive or try_receive that finds a message takes the oldest, and changes nothing but the mailbox and the caller |
| `KernelReplies.RepliesToLast` | kernel/src/ipc.rs:155-309 | over every run, until a task consumes another message, its reply is queued last in the mailbox of the sender of the message it consumed last, from its own domain, and a reply or fault reply wakes that sender |
| `KernelReplies.SilentAtFirst` | kernel/src/ipc.rs:281-290 | over every run, before its first message a task replies to nobody |
| `KernelPanics.PanicExact` | kernel/src/ipc.rs:82-309 | a kernel step panics exactly when a mailbox it indexes was never made or a faulting domain has no pager; the search for a task to run always succeeds |
| `KernelPanics.ProvidedKept` | kernel/src/pager.rs:45-62 | every step keeps what the tables name in existence: live domains have a mailbox and a pager, and senders, reply targets, pagers, interrupt handlers and send capabilities name domains that have a mailbox |
| `KernelPanics.NoPanic` | kernel/src/main.rs:368-375 | so from tables that cover the boot domains no polite run of the kernel panics in these tables or in the scheduler |
| `KernelRuns.SpawnStartsMinimal` | kernel/src/exec.rs:41-53 | a started program holds exactly three capabilities, no handle and no message, whatever the slot's last owner held, and its loader is its pager |
| `KernelRuns.DestroyClears` | kernel/src/domain.rs:112-132 | after a destroy the domain has no capability, handle, message, pager, vector, line, mask or task, and nobody waits for it |
| `KernelRuns.DestroySparesRows` | kernel/src/domain.rs:124-128 | every other domain keeps its rows |
| `KernelSafety.ReclaimOk` | kernel/src/domain.rs:168-183 | deferred reclaim removes neither the running task nor any live one |
| `KernelEffects.ExitExact` | kernel/src/scheduler/mod.rs:532-554 | SYS_EXIT ends the caller and queues its domain exactly when it is a runtime domain with no other live task |
| `KernelEffects.ExitedIsReclaimed` | kernel/src/domain.rs:168-183 | at the next tick every live domain in the queue is gone |
| `KernelRuns.ReviveExact` | kernel/src/domain.rs:161-183 | the domains waiting to be reclaimed stay dead exactly when no task is started in one of them |
| `KernelRuns.RevivedIsReclaimed` | kernel/src/domain.rs:173-183 | otherwise the next tick removes the live task with its domain |
| `ReclaimExample.RestartedChildIsLost` | kernel/src/syscall.rs:346-366 | a run in which exactly that happens |
| `KernelEffects.RestartExact` | kernel/src/syscall.rs:346-366 | a restart leaves the domain one fresh task and an empty mailbox, keeps its capabilities, handles, pager and registrations, and touches nobody else's task or mailbox; refused, it changes nothing |
| `KernelTiming.StepNoLater` | kernel/src/scheduler/mod.rs:285-308 | no kernel step delays a ready or timed task, and each tick brings it strictly closer |
| `KernelTiming.CallReturns` | kernel/src/ipc.rs:249-268 | a call to a target that stays without live tasks is back in user code before its bound of ticks |
| `KernelTiming.CallWaits` | kernel/src/ipc.rs:249-250 | that bound is the poll interval plus the number of task slots less one |
| `KernelCalls.FaultTold` | kernel/src/pager.rs:76-84 | a faulting task blocks without deadline, and its pager is told exactly when the pager's mailbox has room |
| `KernelCalls.CallReplyExact` | kernel/src/ipc.rs:216-268 | from request to return, over every run and however often the caller wakes in between, a call returns the oldest message of its target: one queued before the request if there was one, else the first one sent since (its own request when it calls itself) |
| `Slots.SetRow` | kernel/src/cap.rs:174-180 | replaces one row and pads with the same row, leaving the others alone |
| `Capabilities.RunNeverAmplifies` | kernel/src/cap.rs:398-436 | no run of sends, revocations, row clears and program starts brings a capability into the system but the three a new program gets |
| `Capabilities.Confined` | kernel/src/syscall.rs:714-726 | a capability held only in an isolated set of domains stays there, and the set isolated, in every state of a run, exactly when every program started fits |
| `KernelCaps.KernelNeverAmplifies` | kernel/src/exec.rs:41-53 | after a run of the whole kernel a capability was held before, or is one of the three and the run spawned a program |
| `KernelCaps.KernelConfined` | kernel/src/exec.rs:41-53 | confinement over runs of the whole kernel holds exactly when every program started has both file services on its side and is inside if the capability is one it starts with |
| `Capabilities.BorderLeaks` | kernel/src/syscall.rs:714-726 | one SendTo across the border is enough to hand a capability out |
| `Capabilities.DelegateExact` | kernel/src/cap.rs:398-436 | delegation adds exactly that capability to exactly that domain, takes it from nobody, and repeated takes no further slot |
| `Capabilities.RevokeUndoesGrant` | kernel/src/cap.rs:353-396 | revoking what was just granted gives back the table |
| `Capabilities.AuditRoundTrip` | kernel/src/cap.rs:76-126 | decoding an audit word gives back the capability, and no capability packs to 0 |
| `CapTables.CapTables.Has` | kernel/src/cap.rs:244-247 | true exactly when some slot of the row holds the capability |
| `CapTables.CapTables.HasPort` | kernel/src/cap.rs:253-268 | true exactly when some port range of the row covers the port |
| `CapTables.CapTables.Grant` | kernel/src/cap.rs:353-377 | fills the first empty slot, or drops the capability when the row is full |
| `CapTables.CapTables.Revoke` | kernel/src/cap.rs:380-396 | empties the first slot that holds the capability |
| `CapTables.CapTables.Delegate` | kernel/src/cap.rs:405-436 | writes only a capability the source holds; succeeds exactly when the target holds it afterwards |
| `CapTables.CapTables.ClearDomain` | kernel/src/cap.rs:162-180 | empties both rows of a domain |
| `CapTables.CapTables.HandleIssue` | kernel/src/cap.rs:184-203 | the object goes to the first empty slot, whose index is returned |
| `CapTables.CapTables.HandleLookup` | kernel/src/cap.rs:206-220 | the object of a live handle, nothing for any other |
| `CapTables.CapTables.HandleDrop` | kernel/src/cap.rs:223-241 | empties a live slot, else reports failure |
| `CapTables.CapTables.HandleMove` | kernel/src/cap.rs:311-350 | take, place, or roll back |
| `Handles.IssueConserves` | kernel/src/cap.rs:184-203 | issuing adds exactly the object to the multiset of live objects |
| `Handles.DropConserves` | kernel/src/cap.rs:223-241 | dropping removes exactly the object |
| `Handles.MoveConserves` | kernel/src/cap.rs:311-350 | moving changes no multiplicity |
| `Handles.ClearConserves` | kernel/src/cap.rs:166-182 | clearing a domain's row removes exactly the objects in it |
| `Handles.MoveSlots` | kernel/src/cap.rs:303-350 | a failed move leaves every slot as it was, and a move fails exactly on an empty source or a missing or full other target |
| `Handles.NeverTwice` | kernel/src/cap.rs:306-310 | over every run of issues, drops, moves and row clears an object issued once is never in two slots |
| `Merkle.MerkleRoot` | boot/src/security/hash.rs:95-121 | chunking and level loops compute the root |
| `Merkle.TopIsTree` | boot/src/security/hash.rs:106-120 | the level loop is the recursive tree with a full left half and odd nodes promoted |
| `Merkle.RootOfHalves` | boot/src/security/hash.rs:95-121 | the root of an image is the hash of the root of its left half followed by that of the rest, the left half being the largest power of two of whole chunks that leaves something over |
| `Merkle.RootOfSmall` | boot/src/security/hash.rs:95-105 | an image of at most one chunk, the empty one too, is hashed as it is |
| `Merkle.RootCollision` | boot/src/security/hash.rs:95-121 | two different images with one root, cut into equally many chunks or into none of 64 bytes: two different strings that the two computations hashed to one value are returned |
| `Merkle.ChunkSizeExact` | boot/src/security/hash.rs:95-121 | equal roots of different images come with such a collision, for every hash and all images, exactly when the chunk size is below 64 |
| `Merkle.SizeMatters` | boot/src/security/hash.rs:95-121 | for every chunk size from 64 on, a hash and two different images with one root for which no two of the strings hashed collide |
| `Utf8.DecodeAt` | kernel/src/video/unicode.rs:23-57 | the decoding loop |
| `Utf8.DecodeInverts` | kernel/src/video/unicode.rs:23-57 | decoding gives back every encoded scalar value |
| `Utf8.DecodeAccepts` | kernel/src/video/unicode.rs:23-57 | a multi-byte sequence is accepted exactly when it is well formed; anything else is U+FFFD of length 1 |
| `Utf8.PrevIndex` | kernel/src/video/unicode.rs:66-73 | steps back to the nearest byte that is no continuation |
| `Utf8.StepsInvert` | kernel/src/video/unicode.rs:59-73 | on well-formed text the two steps go to the neighbouring characters and undo each other |
| `Utf8.StrWidth` | kernel/src/video/unicode.rs:94-103 | the width loop |
| `Utf8.WidthIsColumns` | kernel/src/video/unicode.rs:94-103 | on well-formed text it is the sum of the characters' widths |
| `Terminal.AppendFits` | kernel/src/video/mod.rs:608-628 | limits hold after a visible character exactly when it is no wider than the screen |
| `Terminal.PrintOk` | kernel/src/video/mod.rs:639-651 | with two columns or more every line of every print stays well formed, within 200 bytes and the columns |
| `Terminal.OneColumnOverflows` | kernel/src/video/mod.rs:619-626 | with one column a wide character overflows |
| `Terminal.BackspaceUndoes` | kernel/src/video/mod.rs:654-666 | backspace removes exactly the character just written |
| `Terminal.Terminal.AppendCp` | kernel/src/video/mod.rs:608-628 | the byte buffer does what the character model does |
| `Terminal.Terminal.LineBackspace` | kernel/src/video/mod.rs:654-666 | cuts back to the first byte of the last character |
| `Terminal.Terminal.AppendText` | kernel/src/video/mod.rs:639-651 | a whole print |
| `Terminal.Terminal.CommitLine` | kernel/src/video/mod.rs:318-323 | the line joins the committed ones and the buffer is empty |
| `Terminal.Terminal.HistoryPush` | kernel/src/video/mod.rs:299-315 | the ring holds the last committed lines, oldest first |
| `LogRing.LogRing.CaptureBytes` | kernel/src/klog.rs:28-36 | the ring keeps standing for the whole log with the bytes appended |
| `LogRing.LogRing.Read` | kernel/src/klog.rs:59-76 | returns the log from the later of start and oldest, cut to the buffer |
| `LogRing.ReadsRebuildTail` | kernel/src/klog.rs:43-76 | successive reads from the oldest offset rebuild the last min(total, capacity) bytes |
| `LogRing.NextReadExact` | kernel/src/klog.rs:59-76 | the next read begins where this one ended exactly when its start was still held |
| `LogRing.ReadsOffsets` | kernel/src/klog.rs:59-76 | the bytes successive reads return are those of the log at the computed offsets |
| `LogRing.ReadsExact` | kernel/src/klog.rs:43-76 | those offsets follow each other without gap or repetition exactly when the first start was still held or at most one read asks for anything |
| `LogRing.FollowsOffsets` | kernel/src/klog.rs:28-76 | with captures in between, the bytes successive reads return are those of the final log at the computed offsets |
| `LogRing.FollowExact` | kernel/src/klog.rs:28-76 | those offsets are the log from the first start on, without gap or repetition, exactly when at each read that returns anything the reader is at most the capacity behind |

## Left out

- Hardware: context switch, CR3 and TLB, GDT, IDT, PIC, PIT, APIC, I/O ports, PCI and spin locks appear only through
  the atomic steps they make possible.
- Flags of intermediate page tables, which the paging library may widen when it passes through them.
- Building the bitmap from the boot memory map and reserving the firmware's page tables; the model starts from any
  allocator state.
- RunAccounting: the first domain is created from boot page tables whose kernel half is taken to have tables of its
  own; building them is not modelled. `RunCovered` keeps it that way.
- The key queue and SYS_KEY_READ, device grants and DMA, network ports, the framebuffer calls, the pager's payload.
- Any bound on mailbox size: only two of the four ways to push test it.
- The IOMMU tables.
- Drawing: incremental redraw, cursor and fonts.
- SM3: the hash is an arbitrary function to 32 bytes.
- Tick and log counters wrapping at 64 bits.
- `KernelSteps` and the memory model are joined only by name: `Destroy`, `SpawnDomain` and `Restart` are proved once
  for the rows and once for memory, with `loads` for the outcome of the memory half. A spawn or restart whose image is
  refused by the parser, and a spawn over its page budget, change nothing and are no steps of `KernelSteps`.
- NoPanic: says nothing about panics inside page mapping and program loading, which belong to the memory model
  (`LoadExact`).
- Two tasks of one domain blocked at a time: every step theorem assumes at most one live task per domain besides the
  idle task, which is what the kernel's own ways to start a task produce.
