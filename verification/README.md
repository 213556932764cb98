# xv6 kernels: a verified model

Two patched xv6 kernels share most of their files. One forks by copy-on-write with a reference count
per physical page (`xv6-cow_patch/`), the other schedules by priority or by a multi-level feedback
queue and accounts for every tick (`xv6_scheduling_patch/`). This project models the parts where a
mistake would be hard to see by reading one function, and proves what every run of them keeps.

| component | files |
|---|---|
| copy-on-write memory, page counts, free list | `PageFrames`, `CowMachine`, `CowSafety`, `CowRefinement`, `CowRuns`, `CowKernel` |
| redo log over the buffer cache | `DiskBlocks`, `Journal`, `BufferCache`, `RedoLog`, `LogAdmission` |
| blocks, inodes and file contents | `FsBits`, `FsState`, `FsSteps`, `FsContent`, `FsWriting`, `FsTruncate`, `FsChunk`, `FileSystem`, `FsFresh`, `FsFlight` |
| files across a crash | `CrashFile` |
| process table, tick accounting, schedulers | `SchedMachine`, `ProcTree`, `TickAccounting`, `MlfqAging`, `SchedKernel`, `SchedTurns`, `PbsScheduler`, `MlfqScheduler` |
| pipe | `PipeStream`, `Pipe` |
| shared by several | `Params`, `SetSizes` |
| user-level allocator | `FreeList`, `Umalloc`, `ProcSize` |

Each component has two halves. The first is a machine of values: a state, the steps that the kernel
code takes while nothing can interrupt it, an invariant, and lemmas about every step and every run. The
second is a class (or a few) whose methods have the loops and the updates in place of the C functions,
proved to do exactly those steps.

How the machines are cut into steps:

- *Memory.* One step is a `kalloc` and its publication, one shared mapping made by `copyuvm`, the
  `i_rCount` after it, one `kfree`, the clearing of the word that named the page, one page fault or one
  store. Any process may run between two steps, so a mapping that is made but not yet counted, and a word
  whose page is released but which is not yet cleared, are part of the state. A store through a clear PTE_W bit
  faults first, also in the kernel, because CR0_WP is set.
- *Disk.* One step is one `bwrite`. A crash keeps the disk and loses memory.
- *Log.* `log_write` tests the size of the log without the lock; the test and the insertion are two steps.
- *Processes.* One step is one critical section under `ptable.lock`, on one CPU; the scheduler takes steps only
  when no process has the CPU. A timer interrupt is handled with interrupts off
  (`xv6_scheduling_patch/trap.c:22`), so a process that has taken a tick takes no other before it gives the
  CPU up. A scheduler pass is proved for every behaviour of the rest of the kernel: the machine it finds after
  each switch is a parameter.
- *Pipe.* One step runs from acquiring the pipe's lock to releasing it or sleeping.

Results that differ from what one might expect of the code:

- The log made by `mkfs` has 30 blocks including its header, and `log_write` compares with
  `log.size - 1`. When every operation logs at most b of its MAXOPBLOCKS blocks, as many as 10 + 2b can come to be
  listed. New blocks are always accepted exactly when the log has more blocks than that
  (`LogAdmission.NewBlocksAcceptedIff`), and no call panics exactly when b is below 10 and the log has more than
  11 + 2b blocks (`LogAdmission.NeverPanicsIff`). So in the log of `mkfs` operations that use all ten of their
  blocks can reach a panic, and in any larger log too, with a block that the log already holds
  (`LogAdmission.FullLogRefusesAbsorption`); operations that use nine or fewer cannot. Those of `filewrite` need all
  ten only where the free map has more than three blocks (`CrashFile.WritesNeverPanicIff`). On the 1000-block disk of
  `mkfs` it has one, they log at most seven, and they never meet the panic.
- Because the test takes no lock, two operations can both pass it with one place left, and a log of 2 to 10 + 2b
  blocks then lists as many blocks as it has, header included (`LogAdmission.LogOverflows`); a reachable list is
  always shorter exactly when the log has more than 10 + 2b blocks, or only its header
  (`LogAdmission.LogStaysInsideIff`). In a log of fewer than 30 blocks `write_log` then runs over the block
  after the log, and a crash before the header is written leaves that block neither old nor new
  (`LogAdmission.OverflowDamages`). In a log of 30 it does not come to that: with b at 10 all 30 buffers
  are then pinned and the commit panics before its first write (`RedoLog.CommitStaysInside`), so crash atomicity
  (`Journal.CrashAtomic`) is not lost, but the kernel stops; with b below 10 every commit completes
  (`RedoLog.CommitCompletes`).
- There are as many buffers as LOGSIZE. A commit completes exactly when the log is empty or some buffer is
  neither held nor pinned (`RedoLog.Log.Commit`); with 30 blocks listed every buffer is pinned and it panics
  (`BufferCache.FreeUnlessAllPinned`).
- `fork`, the child's life and its reaping do not always give back every page: a page that other processes
  shared before, and that one of them stored to meanwhile, now takes two (`CowRuns.FaultTakesPage`). `free_pages` is
  restored by every such life if and only if no page is free at the start, or every page on which a process can then
  fault is named once (`CowRuns.FreePagesRestoredIff`).
- `malloc` rounds the request up in 32-bit arithmetic. The block it looks for holds the request exactly
  when the request is at most 2^32 - 8 bytes (`Umalloc.RequestFits`).
- The argument of `sbrk` is an int. For a request of 2^31 - 15 to 2^32 - 8 bytes it comes out negative or zero, and
  `sbrk` then returns the old end of memory without adding any, or having taken some away. `morecore` links in a block
  there all the same. `malloc` leaves the heap in order if and only if a free block was large enough or the
  request is not one of these; otherwise the store of the header faults, or the caller is handed a block that begins
  where the process's memory ended (`Umalloc.Heap.Malloc`; `Umalloc.PastTheEnd` is such a run).
- A writer that is killed when the pipe is full returns without waking the readers. A reader may then
  stay asleep beside bytes; nothing else leaves one there (`PipeStream.ReadersRightIff`,
  `PipeStream.ReaderLeftAsleep`).

## Model

| member | source | states |
|---|---|---|
| `PageFrames.RefsBounded` | xv6-cow_patch/kalloc.c:120-128 | no frame can be named by enough page-table words for its 32-bit count to wrap |
| `CowMachine.PendingTwice` | xv6-cow_patch/vm.c:335-340 | each mapping made and not yet counted adds two words naming the frame and is missing from its count once |
| `CowMachine.CountOfIdle` | xv6-cow_patch/vm.c:405-412 | a faulting process that sees count 1 holds the only reference, even while other forks have uncounted mappings; the count is never below 1, so the panic is not reached |
| `CowMachine.CountBounds` | xv6-cow_patch/kalloc.c:84-95 | a count is 0 exactly for the frames on the free list, and never near wrap-around |
| `CowMachine.CountsInMemory` | xv6-cow_patch/vm.c:270-275 | at any moment page_rCount is the number of words in memory naming the page, less the mappings not yet counted and the words released but not yet cleared; beside a writable word only such released ones name its page |
| `CowSafety.StepKeeps` | xv6-cow_patch/vm.c:255-348 | every step of every process keeps, also between a mapping and its count and between a kfree and the clearing of the word: counts equal unreleased references less those in flight, writable means sole such reference, the free list has no duplicates and is the frames without one |
| `CowSafety.ShareKeeps` | xv6-cow_patch/vm.c:331-340 | the step that maps a parent's page in the child, leaving it uncounted, keeps the invariant |
| `CowSafety.SplitKeeps` | xv6-cow_patch/vm.c:414-421 | the copying branch of COW_FAULT keeps it |
| `CowSafety.UpgradeKeeps` | xv6-cow_patch/vm.c:409-412 | setting PTE_W when the count is 1 keeps it |
| `CowSafety.DropKeeps` | xv6-cow_patch/vm.c:270-274 | releasing one reference keeps it, the word staying behind |
| `CowSafety.ClearKeeps` | xv6-cow_patch/vm.c:275 | clearing that word keeps it |
| `CowRefinement.CowStepImage` | xv6-cow_patch/vm.c:399-428 | each step changes the memory that programs see as if every page were private: faults, protection and counting change nothing |
| `CowRefinement.EagerStepImage` | xv6_scheduling_patch/vm.c:315-345 | the eager kernel's steps change it in the same way |
| `EagerMachine.EagerKeeps` | xv6_scheduling_patch/vm.c:325-345 | the eager kernel keeps every frame under one owner and the free list exact |
| `CowRuns.CountsAndFreeList` | xv6-cow_patch/kalloc.c:73-118 | with nothing in flight: page_rCount is the number of words naming the page, a page with PTE_W is mapped nowhere else, the free list is the count-0 pages, each once, and free_pages is its length |
| `CowRuns.FreePagesLaw` | xv6-cow_patch/kalloc.c:42-49 | free_pages plus the distinct frames in use is the number of managed frames |
| `CowRuns.CowFrugal` | xv6-cow_patch/vm.c:324-341 | copy-on-write never has fewer free frames than eager copying, and strictly more while a page is shared |
| `CowRuns.SimStep` | xv6-cow_patch/vm.c:315-348 | one step of simulation: whatever step the copy-on-write kernel takes, the eager kernel can follow, and the two still show the same memory |
| `CowRuns.CowRefinesEager` | xv6_scheduling_patch/vm.c:315-345 | for every run, if eager copying finds its frames then so does copy-on-write, and every process reads the same byte at every address under both |
| `CowRuns.SimAtBoot` | xv6-cow_patch/kalloc.c:51-67 | with nothing mapped, the two kernels are alike |
| `CowRuns.NamedGrows` | xv6-cow_patch/vm.c:414-421 | splitting shared frames takes frames, and as many are in use as before exactly when no sharing was split |
| `CowRuns.FreePagesRestored` | xv6-cow_patch/proc.c:287-299 | a process made, run in any way and reaped, while every other process stores and faults as it likes: free_pages is at most what it was, and equal exactly when all words of other processes that shared a frame still do |
| `CowRuns.FaultTakesPage` | xv6-cow_patch/vm.c:414-421 | one fault of another process on a page it shares is such a life, and leaves one page fewer |
| `CowRuns.FreePagesRestoredIff` | xv6-cow_patch/proc.c:287-299 | every such life restores free_pages if and only if no page is free at the start or every page that can be faulted on then is named once |
| `CowRuns.FreePagesRestoredUnshared` | xv6-cow_patch/proc.c:181-222 | so with nothing shared before the fork free_pages is restored |
| `CowKernel.Kernel.constructor` | xv6-cow_patch/kalloc.c:58-67 | freerange puts every page on the free list once, with count 0 |
| `CowKernel.Kernel.Kfree` | xv6-cow_patch/kalloc.c:73-98 | the count goes down by one; with none left the page is filled with junk and is first on the free list, and no other page or count changes |
| `CowKernel.Kernel.AllocInto` | xv6-cow_patch/kalloc.c:103-118 | succeeds exactly when the free list is not empty; the page is the first of the list, counted once, and zeroed unless it is a stack |
| `CowKernel.Kernel.ReleaseSlot` | xv6-cow_patch/vm.c:270-274 | the page is released and the word left stale |
| `CowKernel.Kernel.ClearSlot` | xv6-cow_patch/vm.c:275 | the stale word goes, and no program sees a change |
| `CowKernel.Kernel.Walk` | xv6-cow_patch/vm.c:35-55 | present exactly when the page table existed, or creation was asked for and a page was free; no user page changes |
| `CowKernel.Kernel.CowFault` | xv6-cow_patch/vm.c:399-428 | no program sees a change; with count 1 the page becomes writable where it is, otherwise the word gets the first free page, and the process is killed exactly if there is none |
| `CowKernel.Kernel.Deallocuvm` | xv6-cow_patch/vm.c:255-279 | exactly the present pages that begin between the two sizes are released, each once, although missing directories are skipped, and no other word changes |
| `CowKernel.Kernel.Freevm` | xv6-cow_patch/vm.c:283-298 | every word of the address space is gone, and nothing of any other changes |
| `CowKernel.Kernel.SetupKvm` | xv6-cow_patch/vm.c:118-136 | succeeds exactly when 65 pages are free, and takes them; otherwise everything is given back |
| `CowKernel.Kernel.Copyuvm` | xv6-cow_patch/vm.c:315-348 | succeeds exactly when there are pages for the child's tables; then the child maps the parent's pages read-only and reads the same bytes; otherwise no program sees a change and free_pages is as before |
| `CowKernel.Kernel.StoreByte` | xv6-cow_patch/vm.c:399-428 | exactly one byte of one page of one process changes, or none does and the process is killed for want of a page |
| `CowKernel.Kernel.Allocuvm` | xv6-cow_patch/vm.c:221-249 | returns the new size exactly when there are pages for the range and for the tables it lacks, and then the pages are zeroed and private; the old size exactly when asked to shrink; otherwise 0, with no user page changed |
| `Journal.HeaderRoundTrip` | xv6-cow_patch/log.c:84-113 | read_head gets back the block numbers that write_head stored |
| `Journal.CommitPoint` | xv6-cow_patch/log.c:192-202 | during commit the home blocks are untouched until the header is on disk, and from then on the log holds the whole transaction |
| `Journal.RecoveryPoint` | xv6-cow_patch/log.c:115-122 | recovery of a committed log, stopped anywhere, leaves it committed or finished |
| `Journal.CrashAtomic` | xv6-cow_patch/log.c:192-202 | a crash after any disk write of commit, then any number of crashes in recovery: the recovery that finishes leaves the whole old or the whole new contents, the new ones exactly from write_head on, for a log that lists fewer blocks than it has |
| `Journal.OverfullLogDamages` | xv6-cow_patch/log.c:182-187 | with as many listed, a crash before write_head leaves the block after the log neither old nor new |
| `BufferCache.RingInsert` | xv6-cow_patch/bio.c:134-137 | the four pointer updates put the buffer at the front of the ring |
| `BufferCache.RingRemove` | xv6-cow_patch/bio.c:132-133 | the two pointer updates take it out and leave the rest a ring |
| `BufferCache.Cache.constructor` | xv6-cow_patch/bio.c:38-56 | every buffer is in the ring exactly once, and no block is cached |
| `BufferCache.Cache.Find` | xv6-cow_patch/bio.c:68-76 | the buffer that holds the block, or proof that none does |
| `BufferCache.Cache.FindFree` | xv6-cow_patch/bio.c:78-92 | the least recently used buffer that is neither held nor pinned, or proof that there is none |
| `BufferCache.Cache.Bread` | xv6-cow_patch/bio.c:61-106 | returns the latest contents of the block, evicting no pinned block and changing no block's contents; a block not cached gets the least recently used free buffer; at most one buffer holds a block; panics exactly when no buffer is held or pinned for the block and none can be recycled; a caller that has to wait is counted first |
| `BufferCache.FreeUnlessAllPinned` | xv6-cow_patch/bio.c:78-92 | with nobody holding a buffer, one can be recycled exactly when fewer blocks are pinned than there are buffers |
| `BufferCache.Cache.Bwrite` | xv6-cow_patch/bio.c:108-116 | one atomic write, which unpins the buffer and changes no block's contents |
| `BufferCache.Cache.Brelse` | xv6-cow_patch/bio.c:120-141 | once nobody holds the buffer it is first in the ring, the others staying in order; contents and pins stay |
| `RedoLog.Log.WriteLogBlocks` | xv6-cow_patch/log.c:177-190 | after any number of its writes the disk is that stage of copying the pinned blocks to the log; it completes exactly when the log is empty or a buffer can be recycled |
| `RedoLog.Log.InstallTrans` | xv6-cow_patch/log.c:69-82 | after any number of its writes the disk is that stage of installing; it completes exactly when there is a buffer to spare and another if the first block listed is not pinned; then exactly the logged blocks are unpinned |
| `RedoLog.Log.WriteHeader` | xv6-cow_patch/log.c:101-113 | the header block, and only that block, now decodes to the given list; completes exactly when a buffer can be recycled |
| `RedoLog.Log.Commit` | xv6-cow_patch/log.c:192-202 | every disk state on the way is a stage of the commit of the pinned blocks, also of a list too long for the log if the blocks after the log are not among them; it completes exactly when the log is empty or some buffer is neither held nor pinned; then the log is empty, nothing is pinned and every block that is not written over reads as before |
| `RedoLog.Log.Recover` | xv6-cow_patch/log.c:115-122 | at boot it always completes, every disk state on the way is a stage of recovery, and at the end the disk is the recovered one |
| `RedoLog.Log.BeginOp` | xv6-cow_patch/log.c:125-141 | admits exactly when no commit is under way and ten blocks more for every operation, this one included, leave the list at 30 or fewer; it is the Begin step of the operations' machine, so that the space promised to all operations stays within the log |
| `RedoLog.Log.LogWriteTest` | xv6-cow_patch/log.c:218-221 | is the Test step, and passes exactly when fewer than 30 blocks are listed and two places are left in the log, the header's among them |
| `RedoLog.Log.LogWriteInsert` | xv6-cow_patch/log.c:223-232 | is the Insert step, whatever others inserted since the test: the block is in the log once and pinned, and there is a place for it in the header |
| `RedoLog.Log.EndOp` | xv6-cow_patch/log.c:145-174 | is the End step, and for the last operation also a whole commit, which completes exactly when the log is empty or a buffer can be recycled |
| `RedoLog.CommitStaysInside` | xv6-cow_patch/log.c:177-202 | in a log of at least LOGSIZE blocks the last end_op never writes past the log: fewer blocks are listed than it has, or no buffer is left and it stops before its first write |
| `RedoLog.CommitCompletes` | xv6-cow_patch/log.c:192-202 | in a log of at least LOGSIZE blocks, when no operation uses all of its MAXOPBLOCKS, the list fits and the commit completes |
| `LogAdmission.StepKeeps` | xv6-cow_patch/log.c:125-233 | in every interleaving, of tests and insertions too: log space used plus space still to be used is at most MAXOPBLOCKS and twice the most that an operation logs, so at most LOGSIZE; logged blocks are distinct, and commit starts only with no operation outstanding |
| `LogAdmission.AppendFits` | xv6-cow_patch/log.c:213-233 | an operation within its budget finds fewer blocks logged than that when it adds a new one |
| `LogAdmission.PanicsOnlyWhenFull` | xv6-cow_patch/log.c:218-219 | in a log with more than LOGSIZE blocks, an operation within budget meets the panic exactly when the log is full, and then only with a block already logged |
| `LogAdmission.SmallLogPanics` | xv6-cow_patch/mkfs.c:25 | in any log of at most that many blocks, as mkfs makes it, operations within budget that log file system blocks, with no panic before, reach a new block that is refused |
| `LogAdmission.FullLogRefusesAbsorption` | xv6-cow_patch/log.c:218-230 | with operations that use all ten blocks, a full log of any larger size refuses a block that it holds already |
| `LogAdmission.NewBlocksAcceptedIff` | xv6-cow_patch/log.c:218-219 | new blocks of operations that log at most b blocks are always accepted if and only if the log has more than 10 + 2b blocks |
| `LogAdmission.NeverPanicsIff` | xv6-cow_patch/log.c:218-219 | no call of log_write panics if and only if b is below 10 and the log has more than 11 + 2b blocks |
| `LogAdmission.LogOverflows` | xv6-cow_patch/log.c:218-230 | in any log of 2 to 10 + 2b blocks, operations within budget that pass every test and then end list as many file system blocks as the log has blocks |
| `LogAdmission.LogStaysInsideIff` | xv6-cow_patch/log.c:218-230 | every reachable list is shorter than the log if and only if the log has more than 10 + 2b blocks, or one |
| `LogAdmission.OverflowDamages` | xv6-cow_patch/log.c:177-190 | on any disk, such a list whose commit, cut before write_head, leaves the block after the log neither old nor new |
| `DiskBlocks.Get32Set32` | xv6-cow_patch/fs.c:389-394 | an integer stored in a block is read back, and the others in the block are unchanged |
| `FsBits.BitSetBit` | xv6-cow_patch/fs.c:65-68 | setting or clearing one bit of a bitmap block changes that bit alone |
| `FsState.InodeRoundTrip` | xv6-cow_patch/fs.c:220-236 | the inode that iupdate stores is the one read back, and its neighbours in the block are unchanged |
| `FsSteps.AllocKeeps` | xv6-cow_patch/fs.c:372-400 | a block from balloc put in an empty slot: a bit is still set iff the block is metadata or has exactly one slot, and no file's data moves |
| `FsSteps.FreeKeeps` | xv6-cow_patch/fs.c:407-435 | a slot's block is marked in use, so bfree does not panic, and freeing it with its slot keeps ownership exact |
| `FsSteps.WriteKeeps` | xv6-cow_patch/fs.c:498-504 | overwriting a file block changes no slot, no bit and no other file block |
| `FsSteps.UpdateKeeps` | xv6-cow_patch/fs.c:220-236 | storing an inode changes no slot, no bit, no file data and no other inode |
| `FsContent.OtherContent` | xv6-cow_patch/fs.c:481-511 | a file not worked on keeps its blocks and its bytes |
| `FsContent.MappedShape` | xv6-cow_patch/fs.c:372-400 | bmap for the block after the last keeps the file without holes, with an indirect block only past block 12 |
| `FsContent.OverwriteSplices` | xv6-cow_patch/fs.c:498-504 | copying into part of one block is a splice of the file's bytes, extending them if need be |
| `FsWriting.WriteCopies` | xv6-cow_patch/fs.c:498-504 | one turn of writei's loop: the file is the old one with the bytes so far spliced in |
| `FsWriting.WriteEndsInside` | xv6-cow_patch/fs.c:506-510 | a write that does not grow the file has allocated nothing, so the inode on disk is right without iupdate |
| `FsWriting.WriteEndsBeyond` | xv6-cow_patch/fs.c:506-509 | after a write that grows the file and iupdate, memory and disk agree on every inode |
| `FsTruncate.TruncFrees` | xv6-cow_patch/fs.c:414-430 | one block freed on the way through itrunc: exactly the slots done are empty, exactly their blocks free |
| `FsTruncate.ApartTruncating` | xv6-cow_patch/fs.c:420-431 | itrunc leaves the old entries in the indirect block; they do not matter once that block is free |
| `FsTruncate.TruncEnds` | xv6-cow_patch/fs.c:433-434 | the emptied inode on disk, every other file as it was |
| `FsFlight.StepKeeps` | xv6-cow_patch/fs.c:56-78 | with any number of processes between balloc and the store of the block, each step doing what it should: every block in use is named by one slot or held by one process, and balloc hands out none that is |
| `FsFlight.StepLeavesData` | xv6-cow_patch/fs.c:372-400 | none of their steps moves or changes a data block other than the one it is about |
| `FsFlight.RunKeeps` | xv6-cow_patch/fs.c:372-435 | in every run, and when nothing is held any more the bits are exact again |
| `FsChunk.TouchOne` | xv6-cow_patch/fs.c:498-500 | each turn of the loop reaches one more block |
| `FsChunk.ChunkWithinBudget` | xv6-cow_patch/file.c:127-145 | a write of at most 1536 bytes logs at most 10 blocks, data, bitmap, indirect and inode together, for every alignment, and at most 6 besides the blocks of the free map |
| `FsFresh.FreshSettled` | xv6-cow_patch/mkfs.c:94-103 | for every layout, the empty image with the bits of all blocks before the data set satisfies every condition demanded between operations |
| `FsFresh.MkfsLayout` | xv6-cow_patch/mkfs.c:94-103 | the layout that mkfs computes is such a layout |
| `FileSystem.FileSystem.Balloc` | xv6-cow_patch/fs.c:56-78 | the lowest free block, marked and zeroed; the panic exactly when every bit is set |
| `FileSystem.FileSystem.Bfree` | xv6-cow_patch/fs.c:81-95 | clears that bit; the panic exactly when it was clear |
| `FileSystem.FileSystem.Iupdate` | xv6-cow_patch/fs.c:220-236 | the in-memory inode stored in its place on disk |
| `FileSystem.FileSystem.Bmap` | xv6-cow_patch/fs.c:372-400 | the block's address; nothing changes if it existed, else it is new, every other block and file is kept and ownership stays exact; panics past block 139, or exactly when fewer blocks are free than it has to allocate |
| `FileSystem.FileSystem.Readi` | xv6-cow_patch/fs.c:452-476 | exactly the bytes from off, clipped to the size, across direct and indirect blocks; nothing changes; -1 exactly for an offset past the end or a sum that wraps |
| `FileSystem.FileSystem.Writei` | xv6-cow_patch/fs.c:481-511 | exactly a splice at off; every other file unchanged; disk and memory agree; every block changed is logged, and their number bounded; -1 and no change exactly for the ranges refused; panics exactly when fewer blocks are free than the growth of the file takes |
| `FileSystem.FileSystem.Itrunc` | xv6-cow_patch/fs.c:407-435 | frees exactly the inode's blocks, never reaches "freeing free block", other files unchanged; every block changed is logged, and only blocks of the free map and the inode's, which always is |
| `FileSystem.FileSystem.Filewrite` | xv6-cow_patch/file.c:117-156 | each operation logs every block it changes, and at most MAXOPBLOCKS, or 6 and the blocks of the free map; after each the file is the old one with so many chunks spliced in; all are written exactly when they fit in a file; "short filewrite" is reached for devices only, whose first chunk not taken whole decides what is returned |
| `CrashFile.SameFiles` | xv6-cow_patch/log.c:115-122 | a disk that agrees outside the log holds the same, whole file system |
| `CrashFile.WritesNeverPanicIff` | xv6-cow_patch/file.c:121-127 | in a log of at least LOGSIZE blocks, operations that log no more than those of filewrite never meet a panic of log_write if and only if the free map has at most three blocks |
| `CrashFile.TransactionAtomic` | xv6-cow_patch/log.c:192-202 | what some operations logged committed at once, a crash after any disk write and any crashes in recovery: the disk has the files from before them or those they leave |
| `CrashFile.TransactionsChain` | xv6-cow_patch/log.c:163-173 | transactions of any operations one after the other: each begins with a clean log and the files of all the operations before it |
| `CrashFile.HistoryAtomic` | xv6-cow_patch/log.c:115-122 | a crash after any disk write of any transaction: after recovery the disk holds the files as the operations of the transactions so far have left them, this one included exactly if its header was written |
| `CrashFile.FilewriteHistory` | xv6-cow_patch/file.c:127-152 | the operations of filewrite are such operations, each writing the next chunk |
| `CrashFile.TruncateHistory` | xv6-cow_patch/fs.c:407-435 | a truncation is an operation like the others, and leaves the file empty and every other file as it was |
| `CrashFile.FilewriteCrash` | xv6-cow_patch/file.c:127-152 | filewrite among other operations, spread over the transactions in any way, and a crash anywhere: after recovery the file system is whole and the file has a whole number of chunks spliced in, those of the transactions committed |
| `CrashFile.TruncateCrash` | xv6-cow_patch/fs.c:407-435 | a crash anywhere in the transaction of a truncation: after recovery the file system is whole and the file has all of its bytes or none |
| `SchedKernel.Table.UpdateRuns` | xv6_scheduling_patch/proc.c:31-50 | every running process is charged one tick in its queue, every sleeping one an I/O tick, and nothing else changes |
| `SchedKernel.Table.TimerTick` | xv6_scheduling_patch/trap.c:49-59 | one tick of the machine: every process asleep on the ticks becomes runnable, with that tick charged as I/O; every other keeps its state |
| `SchedKernel.Table.Wakeup` | xv6_scheduling_patch/proc.c:806-824 | exactly the processes asleep on the channel become runnable, and nothing else changes |
| `SchedKernel.Table.Allocproc` | xv6_scheduling_patch/proc.c:103-131 | the lowest unused slot with a new pid, its times cleared, priority 60 and queue 0, or none if every slot is taken; no other process changes |
| `SchedKernel.Table.GiveUp` | xv6_scheduling_patch/proc.c:239-245 | the child of a fork without memory is unused again |
| `SchedKernel.Table.SetParent` | xv6_scheduling_patch/proc.c:247 | the child's parent is the process that forks |
| `SchedKernel.Table.MakeRunnable` | xv6_scheduling_patch/proc.c:262-268 | the child may run, and fork returns its pid |
| `SchedKernel.Table.Yield` | xv6_scheduling_patch/proc.c:734-740 | the process is runnable, and nothing else changes |
| `SchedKernel.Table.Sleep` | xv6_scheduling_patch/proc.c:765-788 | the process sleeps on the channel, and nothing else changes |
| `SchedKernel.Table.Kill` | xv6_scheduling_patch/proc.c:829-850 | the first process with the pid is marked, and runnable if it slept; -1 exactly when there is none; no other process changes |
| `SchedKernel.Table.SearchPid` | xv6_scheduling_patch/proc.c:437-440 | the lowest slot with the pid, or none has it; no lock is held |
| `SchedKernel.Table.StorePriority` | xv6_scheduling_patch/proc.c:441-448 | the priority of whatever process is in the slot by then is set; yields exactly when that process became more urgent |
| `SchedKernel.Table.ChangePriority` | xv6_scheduling_patch/proc.c:429-455 | when nothing comes between: the old priority of the process with the pid returned and the new one set, for priorities 0..100, otherwise -1 |
| `SchedKernel.Table.Exit` | xv6_scheduling_patch/proc.c:274-324 | one exit step of the machine: parent woken if it waits, children given to init, init woken if one is a zombie and it waits, the process a zombie with its end time; refuses exactly init |
| `SchedKernel.Table.WaitTurn` | xv6_scheduling_patch/proc.c:328-427 | reaps the lowest zombie child exactly when there is one, and clears its slot; fails exactly when there is no child or the caller is killed; sleeps otherwise |
| `ProcTree.StepTree` | xv6_scheduling_patch/proc.c:298-322 | every step keeps: no process asleep in wait has a zombie child, parents are alive and older than their children, a child under construction has one parent in fork |
| `ProcTree.NoMissedExit` | xv6_scheduling_patch/proc.c:328-371 | in every run from boot: no missed child exit, no parent that is ZOMBIE or UNUSED, parent pid below child pid, every process descends from init |
| `ProcTree.DescendsFromInit` | xv6_scheduling_patch/proc.c:301-310 | following parents from a live process ends at init |
| `TickAccounting.EveryTickAccounted` | xv6_scheduling_patch/proc.c:31-50 | in every run, rtime and iotime are the ticks the history shows running and asleep, rtime is the sum of q_ticks, and ticks - ctime is running, sleeping and waiting together |
| `TickAccounting.WaitxExact` | xv6_scheduling_patch/proc.c:392-393 | the wtime of waitx is exactly the ticks spent EMBRYO or RUNNABLE, so never negative |
| `MlfqAging.SubtractionNeverWraps` | xv6_scheduling_patch/proc.c:621 | in every run lastWorkingticks is at most ticks and the queue is in 0..4 |
| `MlfqAging.WaitBounded` | xv6_scheduling_patch/proc.c:616-631 | a process that waits unpicked in queue q has waited at most 5q ticks, which is q_max_time[q], and the ticks since the last scan |
| `MlfqAging.PromotedInTime` | xv6_scheduling_patch/proc.c:616-631 | it is promoted one queue at a time, each within 5q + L ticks |
| `MlfqAging.ReachesTopQueue` | xv6_scheduling_patch/proc.c:14 | with scans at most L ticks apart it is in queue 0 after more than 50 + 4L ticks |
| `PbsScheduler.Pbs.FindMin` | xv6_scheduling_patch/proc.c:546-561 | the lowest slot among the runnable processes of least priority value, or none runnable |
| `PbsScheduler.Pbs.Better` | xv6_scheduling_patch/proc.c:588-600 | tells exactly whether a runnable process has a lower priority value |
| `PbsScheduler.Pbs.Pass` | xv6_scheduling_patch/proc.c:545-607 | whatever the rest of the kernel does during the pass, every process dispatched has the least priority value among the runnable ones at that moment; the pass goes up the table and leaves out none as urgent; it stops early only for a more urgent one |
| `PbsScheduler.RoundExtends` | xv6_scheduling_patch/proc.c:563-601 | one more dispatch keeps the round in order |
| `MlfqScheduler.Mlfq.AgeAll` | xv6_scheduling_patch/proc.c:616-631 | is the Age step: exactly the runnable processes that have waited more than 5, 10, 15 or 20 ticks in queues 1 to 4 go up one queue |
| `MlfqScheduler.Mlfq.Choose` | xv6_scheduling_patch/proc.c:632-665 | for each queue the earliest created process, in queue 4 the one that worked longest ago, ties to the lowest slot |
| `SchedTurns.TurnCharges` | xv6_scheduling_patch/trap.c:100-112 | in any turn of a process on the CPU, from the switch to it to its giving the CPU up, at most one tick is charged and its queue and creation time stay |
| `SchedTurns.TurnLeavesIdle` | xv6_scheduling_patch/proc.c:676-683 | after a turn no process has the CPU |
| `MlfqScheduler.Mlfq.RunSlice` | xv6_scheduling_patch/proc.c:671-698 | the process gets the CPU, with lastWorkingticks set, in each turn, and again only while it is runnable and has ticks left; the end is the Demote step exactly if it used them up and is not in queue 4, and the Park step; it ends exactly if some turn leaves the process not runnable or without ticks |
| `MlfqScheduler.SliceBound` | xv6_scheduling_patch/proc.c:673-687 | over any turns the process uses at most max_tick_of_q[i] ticks and stays in queue i |
| `MlfqScheduler.Mlfq.Pass` | xv6_scheduling_patch/proc.c:612-701 | ages all, then gives a slice of 1, 2, 4, 8 or 16 ticks to the best process of the lowest queue that has one, or to none; the process is entered in every turn, and the table is what the last turn left, with the process demoted exactly if it used its ticks and is not in queue 4 |
| `MlfqScheduler.PassSlice` | xv6_scheduling_patch/proc.c:671-698 | from any machine with the CPU idle, the process picked uses at most 1, 2, 4, 8 or 16 ticks, is demoted exactly if it used them all and i is not 4, and the scheduler's steps are enabled |
| `PipeStream.StepKeeps` | xv6-cow_patch/pipe.c:59-121 | a sleeping writer finds the pipe full, which never holds more than 512 bytes |
| `PipeStream.ReadersRightIff` | xv6-cow_patch/pipe.c:85-91 | a step leaves a reader asleep beside bytes if and only if it is the return of a killed writer that wrote some |
| `PipeStream.StreamInOrder` | xv6-cow_patch/pipe.c:77-121 | in every interleaving the bytes read are a prefix of the bytes written, at most 512 behind; sleepers are right unless such a return happened |
| `PipeStream.WriteAdds` | xv6-cow_patch/pipe.c:77-98 | in every run a write adds the first bytes of its data, as many as there is room for in 512; it sleeps exactly if bytes are left, the reader is there and it is not killed |
| `PipeStream.ReadAdds` | xv6-cow_patch/pipe.c:100-121 | in every run a read returns the oldest unread bytes, as many as it asks for or as there are; it sleeps exactly on an empty pipe that can still be written to, unless killed |
| `PipeStream.OthersWake` | xv6-cow_patch/pipe.c:59-75 | closing an end wakes the sleepers at the other, and moves no byte |
| `PipeStream.ReaderLeftAsleep` | xv6-cow_patch/pipe.c:86-89 | a run in which it happens: the pipe full and the reader asleep |
| `Pipe.WrapSlot` | xv6-cow_patch/pipe.c:93 | 512 divides 2^32, so a wrapped counter names the same slot of the ring |
| `Pipe.Wraps` | xv6-cow_patch/pipe.c:85-107 | the tests for full and empty are right after wrap-around |
| `Pipe.Pipe.Write` | xv6-cow_patch/pipe.c:77-98 | takes exactly the bytes there is room for, in order; returns their number when that is all, -1 exactly when the pipe is full and the reader gone or the writer killed, and sleeps otherwise |
| `Pipe.Pipe.Read` | xv6-cow_patch/pipe.c:100-121 | returns exactly the oldest bytes, as many as asked for or as there are; 0 only on an empty pipe that cannot be written to or when nothing is asked for, -1 only when killed on an empty pipe |
| `Pipe.Pipe.Close` | xv6-cow_patch/pipe.c:59-75 | the other end is woken; the pipe is freed exactly when both ends are closed |
| `FreeList.CoalescedSpaced` | xv6-cow_patch/umalloc.c:31-43 | after free the list is in address order with no two blocks touching |
| `FreeList.CoalescedCovers` | xv6-cow_patch/umalloc.c:31-43 | exactly the bytes of the freed block become free |
| `FreeList.CoalescedUnits` | xv6-cow_patch/umalloc.c:31-43 | the units of the list grow by those of the block |
| `FreeList.CarvedCovers` | xv6-cow_patch/umalloc.c:75-81 | exactly the bytes handed out stop being free |
| `ProcSize.NeverGrows` | xv6-cow_patch/proc.c:159-175 | for an argument that is not positive sbrk adds no memory, and the process can still store at its old end exactly if that was inside a page and the end does not leave it |
| `Umalloc.RequestFits` | xv6-cow_patch/umalloc.c:69 | the block sought holds the request if and only if rounding up does not wrap |
| `Umalloc.SbrkGrowsIff` | xv6-cow_patch/umalloc.c:54 | sbrk's argument is positive if and only if the request is at most 2^31 - 16 bytes, or so large that it wraps |
| `Umalloc.SplicedLinked` | xv6-cow_patch/umalloc.c:31-42 | replacing neighbours in the list by one block needs only the pointer of the block before and of the new one |
| `Umalloc.FreeKeeps` | xv6-cow_patch/umalloc.c:24-44 | free keeps: ring in address order, no two blocks adjacent, disjoint from live blocks, free plus live units equal to those from sbrk |
| `Umalloc.Visit` | xv6-cow_patch/umalloc.c:74-88 | a lap of the search goes on, or is back at freep with every block seen |
| `Umalloc.Heap.FindPlace` | xv6-cow_patch/umalloc.c:30-32 | the circular search ends, at the block after which bp belongs |
| `Umalloc.Heap.Free` | xv6-cow_patch/umalloc.c:24-44 | exactly the block's bytes become free, and the heap invariant is kept |
| `Umalloc.Heap.Morecore` | xv6-cow_patch/umalloc.c:46-61 | the block is entered at the end of the free list, whether or not sbrk has added the memory; null exactly when sbrk fails or the store of the header faults |
| `Umalloc.NoFalseJoin` | xv6-cow_patch/umalloc.c:33-36 | even when the end of the new block wraps around 2^32, it is not taken for the first free block |
| `Umalloc.Heap.HandOut` | xv6-cow_patch/umalloc.c:75-84 | the block whole, or its tail, goes from free to live |
| `Umalloc.Heap.Malloc` | xv6-cow_patch/umalloc.c:63-90 | ends in every case, with at most one call of morecore, made exactly when nothing free is large enough; null exactly when sbrk then fails; keeps the heap in order if and only if a free block was large enough or sbrk's argument is positive; then the block is disjoint from all live ones and of bytes that were free or just obtained, and otherwise it is past the end of memory, or the store of its header faults |
| `Umalloc.PastTheEnd` | xv6-cow_patch/umalloc.c:46-61 | a request of 40000 bytes and then one of 2^31 return a block that begins at the end of memory |

## Left out

- Device and boot code, trap entry, segments, TLB hardware and `swtch` itself: a switch is a step, and a store uses the current page-table entries.
- Spinlock internals and memory ordering: a critical section is one step. More than one CPU is not modelled.
- `exec`, ELF loading, `copyout` and the guard page made by `clearpteu`: faults are stores to present user pages.
- Directories, path lookup, link counts, `ialloc`, `iget`, `iput` and the inode cache's reference counts: the in-memory inodes are one table.
- The RR and FCFS schedulers, `sched` as code, console output, and the number of runs of a process.
- Waiting for a sleep lock: a process that waits for a buffer is counted, and what it does afterwards starts when it has the buffer. A process that reads a block in the middle of commit is not modelled.
- The free list, the LRU ring's pointers and the headers of the allocator are sequences and maps of addresses rather than memory reached through pointers; the reference counts, the physical pages, the process table and the pipe's ring are arrays.
- The bytes of user blocks handed out by the allocator; writes outside them, or a double free, void the conditions of `free`.
- Overflow of `ticks`, of pids and of the accounting fields.
- Umalloc.Heap.Malloc: what a process does after a fault, or with a block past the end of its memory.
- RedoLog.Log.BeginOp: one pass of its loop; the waking of operations asleep in it is not modelled.
- RedoLog.Log.EndOp: a list at least as long as the log, with a buffer free, is followed only if the blocks after the log that it runs over are on the disk, held by nobody and not themselves listed (copying a listed block onto itself would wait for its own lock). The list that `LogOverflows` gives is such a list.
- CrashFile.FilewriteCrash: the operations in a transaction take effect on the logical disk one after the other; interleaving inside an operation is covered for blocks and slots (`FsFlight`), not for whole files.
- FileSystem.FileSystem.Filewrite: a device driver's answer is a function of the size only.
- FsFlight.StepKeeps: a block is freed and its slot cleared in one step, while the inode is locked.
- MlfqScheduler.Mlfq.Pass: a process that gives up the CPU again and again without being charged a tick may keep it; the pass is then followed as far as the given turns go.
- CowKernel.Kernel.SetupKvm: the kernel's own mappings are a set of page tables without contents.
