# Proofs about an xv6 kernel with copy-on-write fork and MLFQ scheduling

A Dafny model of the parts of this RISC-V xv6 whose correctness is hard to see from the code, with proofs of
what those parts promise. All sizes that the kernel fixes at build time and that a proof could exploit
(number of buffers, log size, disk size, number of processes, number of pages) are parameters.

* **Log and buffer cache** — `LogSpec.dfy` is the write-ahead log as a machine whose steps are single block
  writes, `begin_op`, `log_write`, `end_op`, and crashes at any point, also during recovery. `LogProof.dfy`
  proves its invariant and the theorems about whole runs. `Bio.dfy` is the buffer cache with its LRU list;
  `Log.dfy` is `log.c` on top of it, and every disk write of its methods is a step of the machine, so the
  theorems hold of the code's disk at every moment. `Log.Log.Run` takes the critical sections of system calls, of
  readers of the cache and of the commit in any order.
* **Copy-on-write memory** — `Kalloc.dfy` counts who owns a page; `Cow.dfy` is `kalloc.c` and the user-memory
  half of `vm.c`, compared with a memory in which fork copies every page at once.
* **Page tables** — `PageTable.dfy` is the Sv39 tree of table pages (section 4.4 of the RISC-V Privileged
  Architecture v1.12) and the flat map it stands for. `TableNeed.dfy` ties the table pages it allocates to the
  numbers that the copy-on-write proofs use.
* **File contents** — `FsData.dfy`, `FsSpec.dfy` and `FileSystem.dfy`: the free map, `bmap`, `itrunc`, `readi`,
  `writei` and the chunking loop of `filewrite`.
* **Sleep and wakeup** — `SleepLock.dfy`: `sleep`, `wakeup`, `kill` and sleep locks in small steps.
* **MLFQ** — `Mlfq.dfy`: the aging scan, the timer tick and the dispatcher.
* **virtio disk driver** — `Virtio.dfy`: descriptors, rings with 16-bit indices (section 2.6 of virtio v1.1), and
  a device that completes requests in any order.
* **User programs** — `Umalloc.dfy` (the K&R allocator), `ShellSpec.dfy`, `ShellGrammar.dfy`, `ShellProof.dfy` and
  `Shell.dfy` (the shell's parser, its grammar and `nulterminate`), `Grep.dfy` (the matcher and the buffering loop).
* **Pipes** — `Pipe.dfy`.
* `Machine.dfy` and `Option.dfy` hold what several parts share.

Code that updates fields becomes a class with those fields. Where processes share them, a method is one critical
section or is built from such methods, and a `Run` takes any sequence of them; recovery of the log, which runs
before other processes, and calls that the code makes under one lock are single methods. Ghost fields carry the
abstract value that the methods are compared with.
`dafny verify dfyconfig.toml` checks everything.

## Properties that do not hold of the code as such

* An operation within its budget can meet the panic of `log_write`, because the tests for a full header and for a
  full log on disk come before the search for the block. `LogProof.PanicsIffFull` says exactly when. A block that is
  already listed meets it when either is full; `LogProof.AbsorptionCanPanic` gives a run. A new block meets it exactly
  when the header array has room but the log on disk has not, so never if the log has a block for every entry besides
  its header. The disk that mkfs makes has not: its log is LOGSIZE blocks long, header included.
  `LogProof.NewBlockCanPanic` gives a run with such a log.
* The aging bound of 31 ticks per level fails for a process whose wait is exactly 2^32 - 1 ticks when the bound
  starts to count, because the unsigned difference then wraps to 0. `Mlfq.AgingBound` is an equivalence,
  `Mlfq.AgingBoundFails` gives a run from boot that reaches it.
* A `copyout` to a read-only page that is not COW writes the page where it is, and so for every process that shares it.
  `Cow.CopyOutIff` says exactly when a copyout is seen by its own table only; `Cow.Memory.SharedPageShows` is a run of
  growth and fork after which the parent sees the byte that a copyout gives the child.
* `malloc` passes the size of what it needs to `sbrk` as an int. `Umalloc.Heap.SbrkIff` says that the new memory lies
  below the break that sbrk leaves if and only if it is less than 2 GiB; `Umalloc.Heap.SbrkWraps` gives requests for
  which sbrk is asked to shrink the process, or for 16 bytes.

## Where comments and code differ

The model follows the code. `uvmcopy` is commented as copying the physical memory, but shares it
(src/kernel/vm.c:305-310); `kinit` is commented as setting the counts to 0, but sets them to 1 and lets `freerange`
bring them down (src/kernel/kalloc.c:45-58); the comment on `mlfq_yield` calls the demotion of a process a promotion
(src/kernel/proc.c:39-42).

## Model

| member | source | states |
|---|---|---|
| LogSpec.PutHead | src/kernel/log.c:102-113 | A list stored in a header block is the list read back from it. |
| LogSpec.Absorb | src/kernel/log.c:225-233 | After log_write the block is listed, nothing else is new, and the header grows only for a block not listed before. |
| LogSpec.InstallFromAt | src/kernel/log.c:68-83 | install_trans gives each listed block its log copy and leaves every other block alone. |
| LogSpec.RecoverIffCarries | src/kernel/log.c:116-123 | Recovery yields given contents on all home blocks if and only if the disk carries them (listed blocks in the log, the others in place), and it leaves an empty header. |
| LogSpec.ReplayAt | src/kernel/log.c:205-213 | After a history a block holds what was written to it last, or what it held in the beginning. |
| LogSpec.OpenIff | src/kernel/log.c:126-175 | An operation is open in a history if and only if it has begun and not ended since. |
| LogProof.StepKeeps | src/kernel/log.c:68-235 | Every step keeps the invariant: operations, each block write of commit and of recovery, and a crash. |
| LogProof.RunInv | src/kernel/log.c:68-235 | The invariant holds in every state of every run from any well-formed disk. |
| LogProof.CrashSafety | src/kernel/log.c:68-235 | At any moment of any run, recovering the disk as it is gives exactly the contents after the durable part of the history, and no operation is cut in two there. |
| LogProof.DurableStays | src/kernel/log.c:68-235 | In every run what is durable at one moment is a prefix of what is durable at any later one, crashes included. |
| LogProof.AllOrNothing | src/kernel/log.c:126-175 | Of one operation either all events survive a crash or none. |
| LogProof.QuiescentDurable | src/kernel/log.c:144-175 | With no operation outstanding and no commit running, the whole history is durable and home blocks equal the cached contents. |
| LogProof.Reservation | src/kernel/log.c:126-142 | In every reachable state header entries are distinct, header plus unspent budgets fit LOGSIZE, committing means nobody is outstanding, and adding a new block within budget never finds the header array full. |
| LogProof.PanicsIffFull | src/kernel/log.c:214-235 | An operation within its budget meets the panic if and only if the header array or the log on disk is full; the array is full only for a listed block; a new block is refused exactly when the log on disk is full and the array is not, hence never when it has a block for each entry. |
| LogProof.AbsorptionCanPanic | src/kernel/log.c:219-221 | A run that ends in that panic for a listed block. |
| LogProof.NewBlockCanPanic | src/kernel/log.c:219-221 | A run that ends in that panic for a new block, with a log on disk as long as the header array. |
| BlockCopy.FillHead | src/kernel/log.c:108-111 | The loop of write_head stores exactly the header list. |
| BlockCopy.ParseHead | src/kernel/log.c:91-95 | The loop of read_head reads exactly the stored list. |
| BlockCopy.WriteHead | src/kernel/log.c:101-114 | write_head at the end of recovery changes one disk block, to the stored header, and pins nothing. |
| BlockCopy.RecopyHome | src/kernel/log.c:73-82 | One round of install_trans at recovery puts the log block home; nothing is pinned. |
| BlockCopy.IdleExists | src/kernel/bio.c:75-88 | If pins and buffers in use do not add up to all buffers, bget finds one. |
| Log.Log.constructor | src/kernel/log.c:54-65 | Power-on state over any well-formed disk. |
| Log.Log.AlwaysRecoverable | src/kernel/log.c:68-235 | Whenever a critical section of the log has ended, losing power yields the durable part of the history, with no operation cut in two. |
| Log.Log.BufferForCommit | src/kernel/log.c:178-191 | While listed blocks and buffers in use do not add up to all buffers, bget does not panic. |
| Log.Log.HeaderLeavesOne | src/kernel/param.h:10-11 | With as many buffers as log blocks a full log leaves one buffer. |
| Log.Log.BeginOp | src/kernel/log.c:126-142 | Admits an operation exactly when no commit runs and its budget fits, and then it is the last of the outstanding ones, with nothing logged; otherwise nothing changes. |
| Log.Log.EndOp | src/kernel/log.c:147-163 | Ends an operation, and the others stay outstanding; the last one, and only it, has to commit. |
| Log.Log.Run | src/kernel/log.c:126-235 | For sections of begin_op, bread, changes of buffers, log_write, brelse, end_op and the commit in any order: each does exactly what the turn relation says to buffers, users, contents and the log machine, or cannot go on, or is one of the two panics; at every moment the disk can be lost, what is durable stays so, and when a commit has no section left the whole history is durable. |
| Committer.TurnSteps | src/kernel/log.c:126-235 | Every such section is one step of the log machine or leaves it alone. |
| Committer.TurnsLast | src/kernel/log.c:126-235 | However sections interleave, what is durable stays durable. |
| Log.Log.UpdateBlock | src/kernel/log.c:205-213 | The pattern of every system call: when no part has to wait or panics, exactly one block has the new contents, no buffer stays in use, the disk is untouched, and the history has the begin, the write and the end of the operation. |
| Committer.CommitProgress | src/kernel/log.c:178-203 | Over any stretch of any such run in which a commit runs, it has as many sections left as it had, less those done: 14 for each listed block and 8 for the two header writes; the history and the operations stay. |
| Log.Log.CommitTurn | src/kernel/log.c:178-203 | The next section of the commit: done unless its lock is taken or bget finds no buffer, and then nothing changes; a done section changes only the one buffer that it takes, fills, writes or gives back, and at most one block. |
| Log.Log.CopyToLog | src/kernel/log.c:182-190 | One round of write_log puts the cached contents of a pinned block into its log block, whoever else uses the cache. |
| Log.Log.CopyHome | src/kernel/log.c:73-82 | One round of install_trans puts the log block home and drops the pin. |
| Log.Log.WriteHeader | src/kernel/log.c:101-114 | The header write that commits, and the one that erases the transaction. |
| Log.Log.OtherTurn | src/kernel/bio.c:58-137 | A section of a process that uses the cache hands out, locks, fills or releases exactly one buffer and keeps what the commit holds; it meets the panic of bget exactly when the block is not cached and all buffers are busy. |
| Log.Log.FinishOp | src/kernel/log.c:165-173 | After the commit the log is idle and empty and the whole history is durable. |
| Log.Log.RecoverFromLog | src/kernel/log.c:116-123 | Home blocks become exactly what recovery makes of the disk found at power-on. |
| Log.Log.ReadHead | src/kernel/log.c:86-97 | The list on disk becomes the in-memory header. |
| Log.Log.Scan | src/kernel/log.c:225-228 | Finds the listed block or the end of the list. |
| Log.Log.LogWrite | src/kernel/log.c:214-235 | Records the buffer's data as the block's contents, in the history and in the operation's blocks; of the buffers only this one changes, by one reference for a block not listed before, so the caller still holds its lock; or reports the panic without any change. |
| LruList.Moved | src/kernel/bio.c:126-134 | The four link updates of brelse move a buffer to the head of the list and keep it one doubly linked ring. |
| LruList.MovedByRecency | src/kernel/bio.c:126-134 | The list stays ordered by the time of the last release. |
| Bio.BufferCache.constructor | src/kernel/bio.c:36-53 | binit builds the ring, with every buffer at device 0. |
| Bio.BufferCache.Find | src/kernel/bio.c:65-73 | Finds a cached block if and only if there is one. |
| Bio.BufferCache.FindIdle | src/kernel/bio.c:77-87 | The least recently released buffer without references, if any. |
| Bio.BufferCache.BGet | src/kernel/bio.c:58-89 | Hands out the block's buffer or recycles the least recently released idle one; panics exactly when the block is not cached and all buffers are busy; a block stays in at most one buffer. |
| Bio.BufferCache.BRead | src/kernel/bio.c:92-103 | The locked buffer holds the block's current contents, that is, what was last written or logged; or the caller has a reference and sleeps, exactly when somebody holds the lock. |
| Bio.BufferCache.BWrite | src/kernel/bio.c:106-112 | Disk and contents get the buffer's data. |
| Bio.BufferCache.BPin | src/kernel/bio.c:139-144 | A pinned buffer is counted and cannot be recycled. |
| Bio.BufferCache.BUnpin | src/kernel/bio.c:146-151 | Drops the pin of a block that is home. |
| Bio.BufferCache.BRelse | src/kernel/bio.c:116-137 | Drops the reference; the last one makes the buffer the most recently released. |
| PageCounts.WritableAlone | src/kernel/vm.c:327-334 | No other leaf reaches the page of a writable leaf. |
| PageCounts.UnmapKeeps | src/kernel/kalloc.c:74-83 | Clearing a leaf and decrementing its page's count keep the counts, the free list and the writable leaves right. |
| PageCounts.ShareKeeps | src/kernel/vm.c:338-350 | Mapping a parent's page in the child and incrementing its count keep them right. |
| PageCounts.MoveKeeps | src/kernel/vm.c:398-400 | Repointing a leaf to a fresh page keeps them right. |
| Cow.Memory.constructor | src/kernel/kalloc.c:40-59 | kinit leaves exactly the pages above the kernel on the free list, with counts to match. |
| Cow.Memory.ReleaseLeaf | src/kernel/kalloc.c:73-83 | kfree of a leaf's page up to the end of its first section: the counts match the owners again, and the page is on its way to the free list exactly if this was its last owner. |
| Cow.Memory.KfreePush | src/kernel/kalloc.c:85-93 | A page without owners goes on the free list; no view changes. |
| Cow.Memory.Kfree | src/kernel/kalloc.c:65-94 | Both sections together: one kernel owner less, the page is free exactly if that was the last owner, no view changes. |
| Cow.Memory.KallocPop | src/kernel/kalloc.c:104-108 | Pops the first free page, if any. |
| Cow.Memory.KallocCount | src/kernel/kalloc.c:110-120 | The popped page gets its one owner; no view changes. |
| Cow.Memory.Kalloc | src/kernel/kalloc.c:99-122 | Succeeds exactly when a page is free, and takes one; the page had no owner. |
| Cow.Memory.UnmapOne | src/kernel/vm.c:185-197 | Removes one leaf from the view and drops one owner of its page. |
| Cow.Memory.UvmUnmap | src/kernel/vm.c:176-198 | Removes exactly the given range of one table from the view. |
| Cow.Memory.GrowOne | src/kernel/vm.c:240-253 | A zeroed page at a new address, or no change to any leaf or view. |
| Cow.Memory.UvmAlloc | src/kernel/vm.c:231-256 | Growth adds zeroed pages with the given rights; it succeeds exactly when enough pages are free; failure restores all leaves, so with the count invariant all user counts. |
| Cow.Memory.MarkCow | src/kernel/vm.c:328-334 | A writable leaf becomes read-only and COW; no view changes. |
| Cow.Memory.CopyOne | src/kernel/vm.c:319-350 | The child sees the parent's page at the same address; both leaves are read-only. |
| Cow.Memory.UvmCopy | src/kernel/vm.c:311-357 | Contents and rights are those of an eager copy, or on failure as before; it succeeds exactly when pages are free for the page tables it needs; every page is then shared read-only. |
| Cow.Memory.RemoveCopy | src/kernel/vm.c:362-402 | Gives exactly a COW leaf below MAXVA a private writable page; no contents and no rights change; panics exactly without memory. |
| Cow.Memory.WriteTo | src/kernel/vm.c:442 | Writing through a writable leaf changes that leaf's view only. |
| Cow.Memory.Store | src/kernel/trap.c:51-52 | A user store ends well exactly if the process has the right to write the page, and then changes one byte of one table; it panics exactly when the fault of a COW page finds no memory. |
| Cow.Memory.CopyOut | src/kernel/vm.c:420-449 | Copies all bytes, or those up to the first address without a user page, or up to a COW page for which there is no memory; a byte is seen by exactly the leaves that reach its page, after a COW page was made private; no rights change. |
| Cow.Memory.CopyIn | src/kernel/vm.c:454-474 | Returns the bytes the table sees, all of them or those up to the first address without a user page. |
| Cow.SpreadAt | src/kernel/vm.c:424-447 | The byte at every place of every leaf after a copyout. |
| Cow.SpreadOnPage | src/kernel/vm.c:439-447 | Storing bytes one by one on a page is one splice of the page, for all leaves that reach it. |
| Cow.CopyOutIff | src/kernel/vm.c:420-449 | A copyout is a write to its own table if and only if every byte goes to a COW page or one that no other leaf reaches, or is there already. |
| Cow.PrivateSpread | src/kernel/vm.c:420-449 | So it is for pages that are writable or COW. |
| Cow.Memory.SharedPageShows | src/kernel/vm.c:427-442 | A run of growth and fork, then a copyout by the child to a page that is read-only, not COW and shared: in the last view the parent's byte is 7, where it was 0. |
| Cow.ViewWrite | src/kernel/vm.c:442 | Writing the page of a leaf changes that leaf's view only, if and only if no other leaf reaches the page or nothing changes. |
| Cow.Isolation | src/kernel/vm.c:311-474 | In the eager reference no operation changes what a table other than its own sees or may do. |
| Cow.PagesAfter | src/kernel/vm.c:176-357 | The eager reference is a plain memory: after fork the child has the parent's bytes and rights, growth adds pages of zeros with the given rights from the old size up to the new one, unmapping removes exactly its range, and every other byte and right stays. |
| Cow.BytesAfter | src/kernel/vm.c:420-449 | A store changes the byte at its address, a copyout those from its address on, and no other byte of any table. |
| Cow.Memory.Perform | src/kernel/vm.c:231-474 | One operation is one step of the eager reference and ends as the reference says; it panics only at a COW page with no page free, a store exactly then. |
| Cow.Memory.Run | src/kernel/vm.c:311-474 | Any run of fork, stores, copyout, copyin, unmap, growth and pages given back by the kernel, up to a panic for want of memory: every moment has right counts, free list and writable leaves, every operation is a step of the eager reference, ends as the reference and the free list of that moment say and panics only at a COW page, and the last contents and rights are those of the reference. |
| Cow.AnswersAt | src/kernel/vm.c:231-474 | Each single operation of such a run ends as the reference says, in the state the run has brought it to and with the pages free at that moment, and panics only at a COW page. |
| Cow.RunRefines | src/kernel/vm.c:231-474 | At every moment of such a run contents and rights are those of the eager reference. |
| Cow.FreePages | src/kernel/kalloc.c:65-122 | At every moment free pages, pages in flight and owned pages add up to all pages. |
| Cow.OwnedIff | src/kernel/kalloc.c:65-122 | A page is owned exactly if the kernel holds it or a leaf maps it. |
| TableNeed.NeedIsLacking | src/kernel/vm.c:91-109 | The table pages that fork and growth need, page after page, are those that the trees lack on the way to their pages. |
| PageTable.PxInjective | src/kernel/riscv.h:358-360 | The three indices determine the page number. |
| PageTable.DistinctSlots | src/kernel/vm.c:91-109 | Different pages below MAXVA, or different trees, have their leaf entries in different slots. |
| PageTable.HardwareWalk | src/kernel/vm.c:91-109 | The flat map is what a walk of three levels finds that starts at the root page and follows valid entries. |
| PageTable.PageTables.NewTable | src/kernel/vm.c:102-106 | A zeroed table page is hung on an invalid entry; the flat map stays. |
| PageTable.PageTables.Walk | src/kernel/vm.c:91-109 | Gives the slot of the page number; panics exactly at MAXVA and above; without alloc nothing changes; with alloc it takes one free page for each table that is lacking, and fails exactly when there are too few. |
| PageTable.PageTables.MapPages | src/kernel/vm.c:148-171 | Maps the touched pages in order to consecutive frames with the given permissions and leaves every other page of every tree alone, until one is refused or already mapped; it is done if and only if no page is mapped or too high and the free list has a page for each lacking table, and takes exactly those. |
| PageTable.MappedAt | src/kernel/vm.c:148-171 | Only the slots in range change, to the given frames and permissions. |
| PageTable.PageTables.UvmUnmap | src/kernel/vm.c:176-198 | Clears its range and no other page, and frees the frame of each page, in order; or panics at the first page that is not mapped. |
| PageTable.UnmappedAt | src/kernel/vm.c:176-198 | Only the slots in range are cleared. |
| PageTable.PageTables.UvmCreate | src/kernel/vm.c:202-211 | A new root that maps nothing, exactly when a page is free. |
| PageTable.PageTables.FreeWalk | src/kernel/vm.c:277-293 | Succeeds exactly when the tree holds no leaf, and then exactly its table pages are back on the free list, each once. |
| PageTable.EmptyTree | src/kernel/vm.c:277-293 | A tree whose flat map is empty holds no leaf. |
| PageTable.PageTables.UvmFree | src/kernel/vm.c:297-303 | For a process whose pages are those of its size it never panics, frees exactly the frame of each page (so each once, if the pages have different frames) and each table page once, and leaves other trees alone. |
| FsData.PutGet | src/kernel/fs.c:405-411 | A word stored in an indirect block is read back, and the other words stay. |
| FsSpec.FilledOwned | src/kernel/fs.c:387-414 | Putting a fresh block in an empty slot keeps every block named at most once. |
| FsSpec.WroteContent | src/kernel/fs.c:505-539 | A write splices its bytes into the file's byte sequence. |
| FsSpec.WroteOthers | src/kernel/fs.c:505-539 | It changes no other file. |
| FsSpec.ContentAt | src/kernel/fs.c:372-421 | Each byte of a file is on disk in the block that one of the twelve direct entries or the word of the indirect block for it names. |
| FsSpec.Conservation | src/kernel/fs.c:65-105 | Free, named and metadata blocks add up to the disk. |
| FsSpec.TruncatedBits | src/kernel/fs.c:425-453 | Truncation clears exactly the bits of the file's own blocks. |
| FileSystem.Disk.FindFree | src/kernel/fs.c:72-86 | The first block whose bit is clear. |
| FileSystem.Disk.Balloc | src/kernel/fs.c:65-88 | Marks and zeroes the first free block; returns 0 exactly when the disk is full. |
| FileSystem.Disk.Bmap | src/kernel/fs.c:382-421 | The block of a file, in its direct entry or its word of the indirect block, allocated only if there is none; everything stored before stays; 0 only when the disk is full; every block and bitmap block it changes is logged. |
| FileSystem.Disk.BmapIndirect | src/kernel/fs.c:397-418 | The same through the indirect block. |
| FileSystem.Disk.Itrunc | src/kernel/fs.c:425-453 | Frees exactly the file's data and indirect blocks without panic and logs every bitmap block it changes; the file is empty and the others unchanged. |
| FileSystem.Disk.DropDirect | src/kernel/fs.c:432-437 | Freeing a direct block does not meet the panic of bfree, and exactly that block loses its owner and its bit. |
| FileSystem.Disk.FreeWords | src/kernel/fs.c:439-445 | Freeing the blocks that the indirect block names does not meet it either, and clears exactly their bits. |
| FileSystem.Disk.Readi | src/kernel/fs.c:471-495 | The bytes of the file from off on, clipped to its size, nothing on overflow; nothing is allocated or changed. |
| FileSystem.Disk.Writei | src/kernel/fs.c:505-539 | -1 exactly for a gap, overflow or too large a file; else the bytes written are spliced in, fewer than asked only when the disk is full, other files are unchanged, the inode is on disk, and every block that changed is logged. |
| FileSystem.Disk.WriteThenRead | src/kernel/fs.c:471-539 | readi gives back what writei wrote, for any number of bytes up to those written. |
| FileSystem.Disk.FileWrite | src/kernel/file.c:150-174 | The written prefix of the source is spliced in at the offset, which moves with it; it is short only when the offset is past the end, the disk is full or the next chunk would exceed the largest file; each chunk is one log operation that logs every block it changes, at most MAXOPBLOCKS when one bitmap block covers the disk; there are as many operations as chunks up to the one that stopped. |
| FileSystem.Disk.WriteOp | src/kernel/file.c:156-162 | Fails exactly for an offset past the end or a size beyond the largest file, and writes less only on a full disk; the blocks passed to log_write between begin_op and end_op cover all that changed on disk, and are at most MAXOPBLOCKS. |
| FileSystem.ChunkBudget | src/kernel/file.c:149-155 | A chunk touches at most seven blocks. |
| SleepLock.RunKeeps | src/kernel/proc.c:823-894 | Every small step of every process keeps the invariant. |
| SleepLock.WakeStep | src/kernel/proc.c:823-843 | While a wakeup scans, whoever is asleep or on the way to sleep is still ahead of it. |
| SleepLock.SlpStep | src/kernel/proc.c:868-894 | A process gives up the spinlock only while the sleep lock is taken or a wakeup is still to come past it. |
| SleepLock.NoLostWakeup | src/kernel/sleeplock.c:21-41 | In every interleaving, when the inner spinlock is free and the lock is not taken, nobody is asleep on it or about to sleep. |
| SleepLock.MutualExclusion | src/kernel/sleeplock.c:21-55 | In every interleaving at most one process holds a sleep lock, and holdingsleep says so exactly to it. |
| SleepLock.ReleaseCall | src/kernel/sleeplock.c:33-41 | Every call of releasesleep that returns, whatever the others do in between: the process gave up the lock once, by a step of its own, the lock stayed free from there to the end of the call, on return lock and spinlock are free, and its other locks are untouched. |
| SleepLock.AcquireCall | src/kernel/sleeplock.c:21-31 | Every call of acquiresleep that returns: the process did not hold the lock, took it at the one test of its loop that found the lock free, holds it on return with the spinlock free, and its other locks are untouched. |
| SleepLock.SpinlocksReturned | src/kernel/proc.c:823-894 | In every interleaving a spinlock is held exactly by the process at a point where the code holds it; a process outside these calls holds none, is running and has no channel. |
| SleepLock.WokenIff | src/kernel/proc.c:823-843 | A sleeper is woken exactly by a wakeup that looks at it and finds it on its channel, and by a kill of it. |
| Mlfq.Scheduler.Scan | src/kernel/proc.c:51-71 | Every runnable process above level 0 that has waited more than 30 ticks goes up one level and starts to wait anew; the scan tells whether one is at a better level than the running one. |
| Mlfq.Scheduler.MlfqYield | src/kernel/proc.c:44-90 | Yields exactly when the slice of 1, 3, 9 or 15 ticks is used up or somebody better waits; goes one level down exactly in the first case and above the last level; every yield clears the tick count and queues the process now; what becomes of the others is stated in full. |
| Mlfq.Scheduler.SchedMlfq | src/kernel/proc.c:92-128 | Dispatches the runnable process with the least level, then the least in_time, then the first place in the table. |
| Mlfq.Scheduler.Wakeup | src/kernel/proc.c:823-843 | Sleepers on the channel become runnable with fresh times; nobody else changes. |
| Mlfq.Scheduler.TimerIntr | src/kernel/trap.c:192-204 | clockintr and mlfq_yield do to the whole table what the step relation says. |
| Mlfq.Settled | src/kernel/proc.c:59-66 | A process that has waited e <= 30 ticks at level L needs exactly 31 * L - e more ticks to level 0. |
| Mlfq.AgingBound | src/kernel/proc.c:59-66 | Level 0 is reached within 31 * L ticks if and only if the wait is not exactly 2^32 - 1 ticks (or L is 0). |
| Mlfq.MovesOk | src/kernel/proc.c:44-128 | Every event keeps levels in 0..numq and leaves the CPU idle only if nobody is runnable. |
| Mlfq.TopAfterTimer | src/kernel/trap.c:192-204 | After every timer interrupt and the dispatch after it, no runnable process is at a better level than the running one; the CPU is idle only if it was before and nobody is runnable. |
| Mlfq.AloneRun | src/kernel/proc.c:44-90 | In every run, a new process that runs alone is at level 1 after 1 tick, level 2 after 4, level 3 after 13 and level 4 after 28 ticks, and stays there. |
| Mlfq.EventAt | src/kernel/proc.c:339-355 | What creation, wakeup, kill, sleep and exit make of every process: a new one starts at level 0, a woken one keeps its level and starts to wait now. |
| Mlfq.WaitingMove | src/kernel/proc.c:44-71 | A process that waits before and after an event is changed by one aging scan on a timer interrupt and not otherwise. |
| Mlfq.WaitingRun | src/kernel/proc.c:44-128 | In every run of events, whatever the others do, a process that stays runnable and undispatched is what n aging scans make of it after n timer ticks. |
| Mlfq.RunAgingBound | src/kernel/proc.c:44-128 | In every such run it is at level 0 after 31 ticks for each level, if and only if its wait before was not exactly 2^32 - 1 ticks (or it was there). |
| Mlfq.AgingBoundFails | src/kernel/proc.c:59 | A run from boot that ends with a process for which the bound fails. |
| Mlfq.Scheduler.Step | src/kernel/proc.c:44-128 | An event and the dispatch after it are a step of the step relation. |
| Mlfq.Scheduler.Run | src/kernel/proc.c:44-128 | The snapshots of any sequence of events are a run of the step relation, and after every timer interrupt the best level runs or nobody is runnable. |
| Ring.Push | src/kernel/virtio_disk.c:271-277 | Writing the slot of a 16-bit index and incrementing the index appends to the ring's window, across wrap-around. |
| Ring.Pop | src/kernel/virtio_disk.c:312-323 | The indices differ exactly when an entry is left, and the slot read is the oldest one. |
| Virtio.Disk.AllocDesc | src/kernel/virtio_disk.c:156-166 | Takes the first free descriptor, if any. |
| Virtio.Disk.Alloc3Desc | src/kernel/virtio_disk.c:201-213 | Three different free descriptors if and only if three are free, else the free set as it was. |
| Virtio.Disk.Rollback | src/kernel/virtio_disk.c:206-209 | Giving back the descriptors taken so far restores the free set, and free_desc does not panic. |
| Virtio.Disk.Submit | src/kernel/virtio_disk.c:215-277 | Exactly when three descriptors are free, three of them become a chain of header, data and status with the directions of the request; otherwise the free set, the chains and the buffers stay. |
| Virtio.Disk.DevFetch | src/kernel/virtio_disk.c:271-277 | The device takes the chain that was submitted first of those it has not fetched. |
| Virtio.Disk.DevComplete | src/kernel/virtio_disk.c:309-317 | The device stores the status of any chain it has fetched and appends its id to the used ring, which never overflows. |
| Virtio.Disk.IntrOne | src/kernel/virtio_disk.c:312-324 | The next used entry is consumed once and clears exactly the buffer submitted under its id. |
| Virtio.Disk.Intr | src/kernel/virtio_disk.c:294-327 | Every completed request is seen, and no other; it panics if and only if some completed request has a status other than 0. |
| Virtio.Disk.FreeChain | src/kernel/virtio_disk.c:185-197 | Frees exactly the three descriptors of a chain, without panic. |
| Virtio.Disk.Finish | src/kernel/virtio_disk.c:283-291 | A request returns only after its own completion was seen, and gives back exactly its descriptors. |
| Umalloc.OneCycle | src/user/umalloc.c:24-44 | The free list is one cycle in address order: from base it meets every node once, rising, and comes back. |
| Umalloc.Disjoint | src/user/umalloc.c:24-90 | No two blocks, free or live, overlap. |
| Umalloc.JoinKeeps | src/user/umalloc.c:33-43 | Putting a block back, with both possible joins, keeps the list ordered and non-touching, moves units between blocks and loses none. |
| Umalloc.Heap.FindPlace | src/user/umalloc.c:30-32 | The search ends, at the node after which the block belongs. |
| Umalloc.Heap.Free | src/user/umalloc.c:24-44 | The block is no longer live, every other live block keeps its size, and no unit is lost. |
| Umalloc.Heap.Morecore | src/user/umalloc.c:46-60 | Adds the units asked for, but at least 4096, all new and below the new break, and a free block of the size asked for then exists. |
| Umalloc.Heap.Search | src/user/umalloc.c:74-75 | One round over the list finds a block that is large enough if there is one. |
| Umalloc.Heap.Take | src/user/umalloc.c:75-84 | Unlinks a block of the exact size or cuts the tail of a larger one, which keeps the rest; no other free or live block changes and no unit is lost. |
| Umalloc.Heap.Malloc | src/user/umalloc.c:63-90 | A new live block of exactly the units asked for, disjoint from all others; the heap grows only if no free block fits, at most once; fails only when sbrk does; it terminates. |
| Umalloc.Heap.SbrkIff | src/user/umalloc.c:46-60 | The units that morecore takes as new memory all lie below the break that sbrk leaves if and only if sbrk was asked for their size, and that if and only if it is less than 2 GiB. |
| Umalloc.Heap.SbrkWraps | src/user/umalloc.c:54 | Two requests for which it is not: one asks sbrk to shrink the process, one for 16 bytes. |
| ShellSpec.TokenSpan | src/user/sh.c:296-300 | A word token is a maximal run of word characters. |
| ShellGrammar.TokenIs | src/user/sh.c:266-308 | A token stands between white space and is the longest one there: a symbol, `>>`, or a maximal run of word characters. |
| ShellGrammar.ParsesIff | src/user/sh.c:328-447 | parsecmd accepts a text with a command if and only if the grammar derives it: some syntax tree is written with exactly the tokens of the text, redirections in any place of a simple command, and means the command. |
| ShellGrammar.Unambiguous | src/user/sh.c:328-447 | A text has at most one meaning. |
| ShellProof.RoundTrip | src/user/sh.c:328-447 | Parsing the fully parenthesised text of any printable command gives back that command. |
| Shell.Normalizes | src/user/sh.c:328-447 | The command that any accepted text stands for is printable, and parsing its printed form gives it again. |
| Shell.SameForm | src/user/sh.c:328-447 | Two accepted texts stand for the same command if and only if their printed forms are equal. |
| Shell.Parser.GetToken | src/user/sh.c:266-308 | The token and the cursor the grammar gives. |
| Shell.Parser.Peek | src/user/sh.c:311-320 | Skips white space and tests the next character. |
| Shell.Parser.ParseRedirs | src/user/sh.c:375-398 | The redirections of the grammar, or its syntax error. |
| Shell.Parser.ParseExec | src/user/sh.c:416-447 | The command of the grammar, with redirections before, between and after arguments; ends on every input. |
| Shell.Parser.ParseBlock | src/user/sh.c:400-413 | The parenthesised command of the grammar. |
| Shell.Parser.ParsePipe | src/user/sh.c:362-372 | The pipeline of the grammar. |
| Shell.Parser.ParseLine | src/user/sh.c:345-359 | The line of the grammar, with its & and ; operators. |
| Shell.Parser.ParseCmd | src/user/sh.c:328-343 | A command if the whole text is one, else a syntax error. |
| Shell.ParsedLine | src/user/sh.c:345-447 | Every word of a parsed command is a maximal run of word characters, and no simple command has more arguments than fit. |
| Shell.NulTerminate | src/user/sh.c:450-494 | Writes a NUL behind every word, and nothing else. |
| Shell.WordsAreTokens | src/user/sh.c:450-494 | After nulterminate each argument and file name, as a C string, is exactly its token. |
| Shell.ParseBuffer | src/user/sh.c:328-343 | parsecmd in place: the grammar's command, and every word of it is its token. |
| Regex.MatchHere | src/user/grep.c:84-95 | Matches exactly when the pattern that the expression is read as matches at the start of the text. |
| Regex.MatchStar | src/user/grep.c:98-105 | The same for a starred character and the rest. |
| Regex.Match | src/user/grep.c:71-81 | Matches if and only if the language semantics does, at the start after '^', else anywhere. |
| Regex.PrintParse | src/user/grep.c:84-95 | Every expression is the text of the pattern it is read as. |
| Regex.ParsePrintIff | src/user/grep.c:84-95 | A pattern is read back from its text if and only if no plain character stands before a `*` that it would take and the last one is not a `$` that would end the pattern. |
| Regex.Meaning | src/user/grep.c:84-105 | What an expression matches, from its first characters: a character with `*` takes any number of fitting characters, none included, a last `$` wants the end, anything else takes one fitting character. |
| Grep.SelectedLine | src/user/grep.c:20-34 | A complete line is selected if and only if it matches, whatever stands before and behind it. |
| Grep.Grepper.DoLine | src/user/grep.c:22-27 | A matching line is written with its newline; the rest of the buffer stays. |
| Grep.Grepper.DoLines | src/user/grep.c:21-28 | Writes exactly the matching complete lines of the buffer and leaves the incomplete one. |
| Grep.Grepper.Run | src/user/grep.c:10-34 | The output is the matching complete lines of the input in order, however read splits it. |
| Pipe.PipeBuf.constructor | src/kernel/pipe.c:33-36 | An empty pipe with both ends open. |
| Pipe.PipeBuf.Write | src/kernel/pipe.c:76-102 | Accepts the next bytes in order until done, until the ring is full, or until the reader is gone or the writer killed, and none after that. |
| Pipe.PipeBuf.Read | src/kernel/pipe.c:105-130 | Delivers the oldest bytes in order; waits exactly when the ring is empty and a writer remains. |
| Pipe.PipeBuf.Close | src/kernel/pipe.c:58-74 | The page is freed when the second end closes. |
| Pipe.PipeBuf.Run | src/kernel/pipe.c:58-130 | Any interleaving of turns is a run of the queue; the page is freed once, exactly if both ends are closed. |
| Pipe.PipeBuf.Turn | src/kernel/pipe.c:58-130 | A turn puts in a prefix of what its writer has, gets the oldest bytes, or closes an end, and ends as the queue says. |
| Pipe.FifoRun | src/kernel/pipe.c:58-130 | In every run the queue took exactly what writers put in, turn after turn, readers got exactly its first bytes, at most PIPESIZE bytes are in between, and an end is open until a turn closes it. |
| Pipe.TurnsExact | src/kernel/pipe.c:76-130 | In every run a reader gets all that is there, up to what it asks for, and sleeps only if nothing is there and a writer may come; a writer puts in all that fits and sleeps only if not all does. |
| Pipe.PutsPrefix | src/kernel/pipe.c:76-102 | Each turn of a writer puts in a prefix of what it has to write, and other turns nothing. |

## Left out

- Log.Log.EndOp: the last operation ends with every changed buffer logged, which is the duty of the system calls; no process changes a buffer while a commit runs, because `begin_op` waits.
- Log.Log.Run: the panic of `bget` is an outcome of a section, since the code has no guard against it; `Log.Log.BufferForCommit` says when it cannot come. A section that breaks the duty of its caller (a change outside an operation, a release before log_write, a log_write beyond the budget) does not happen.
- LogProof.CrashSafety: a single block write is atomic, as the disk promises; a torn block write is not modelled.
- LogProof.Reservation: an operation is taken to log at most MAXOPBLOCKS distinct blocks, as `begin_op` reserves; `FileSystem.Disk.FileWrite` shows it for file writes, other system calls are not checked.
- Bio.BufferCache.BRead: the waiting itself is in `SleepLock.dfy`, and for the log in `Log.Log.Run`.
- Cow.Memory.RemoveCopy: the result of `walk` is taken to be a slot (the code dereferences it unchecked), so an absent table counts as an invalid entry.
- Cow.Memory.Run: a copyout to pages without the right to write counts as refused in a run, since the eager reference says nothing about it; `Cow.Memory.CopyOut` has it.
- Cow.Memory.UvmAlloc: sizes stay below MAXVA, beyond which `walk` panics; `PageTable.PageTables.MapPages` has that panic.
- Cow.Memory.UvmCopy: `fork` calls it with a fully mapped parent range and an empty child range; on anything else the code panics.
- Cow.Memory.UvmUnmap: the mappings must exist, or the code panics; `PageTable.PageTables.UvmUnmap` has those panics. Table pages are a number of `kalloc` calls here, whose size `TableNeed.NeedIsLacking` gives, and a run gives them back one by one; that `uvmfree` gives back exactly the pages of a tree is in `PageTable.PageTables.UvmFree`.
- PageTable.PageTables.MapPages: address arithmetic does not wrap around 2^64; permissions include one of R, W, X, as at every call. The bit encoding of entries is a record.
- FileSystem.Disk.Writei: copies from the source succeed; after a failed one the code leaves the buffer changed and not logged.
- FileSystem.Disk.Readi: copies to the destination succeed.
- FileSystem.Disk.Balloc: the free map is one bit for each block; packing eight to a byte is not modelled.
- FileSystem.Disk.Bmap: block numbers beyond MAXFILE are a panic and excluded by the callers.
- SleepLock.NoLostWakeup: only the holder of a sleep lock releases it; timer preemption of a process that holds no lock, and the search of `kill` for its pid, are left out.
- Mlfq.Scheduler.MlfqYield: tick_ctr is an unbounded integer; ticklim[4], which lies past the table, is an arbitrary number.
- Mlfq.Scheduler.SchedMlfq: one CPU; the scan and the dispatch are one step.
- Virtio.Disk.Submit: request headers (type and sector), the MMIO handshake and memory fences.
- Umalloc.Heap.Malloc: when the heap has to grow, the request must fit the int that `sbrk` takes; memory is aligned to header units.
- Shell.NulTerminate: the tree of commands is a value; `parseexec` fills one object in place behind the redirections that already wrap it.
- Grep.Grepper.Run: input without NUL and with complete lines that fit the buffer; an overlong line makes the code stop.
- Pipe.PipeBuf.Write: user copies succeed.
- Directories, path names, link counts, inode allocation and caching, file descriptors, exec, exit and wait.
- FCFS and PBS scheduling, system-call statistics, alarms.
- Boot, device registers other than the virtqueue, trap entry, assembly, spinlocks, printf, strings and mkfs.
