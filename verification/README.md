# Verified models of the xv6 storage stack, memory allocators, pipe, shell and grep

This project models parts of an extended xv6 kernel and its user programs in Dafny and proves what
they promise. Each model takes the form of the C code: state that the code updates in place is a
class with `modifies` clauses, loops are loops with invariants, and code that many processes run at
once is a state machine whose steps are its critical sections. A kernel or shell `panic` is a
result (`ok == false`, a fault, `None`), never a precondition, unless the text below says otherwise.

- **Log and buffer cache** (`LogModel`, `LogInvariant`, `LogSteps`, `LogTheorems`, `CommitCrash`,
  `TornCommit`, `BufferRing`, `LogCache`). In this xv6 a commit writes only log slots and the header; home blocks
  stay stale until the log is full and `sync` installs it. The state machine runs any number of
  processes through `begin_op`, `bread`, `log_write`, `brelse` and `end_op`, with a crash between any
  two steps. One invariant ties `bio.c` to `log.c` and is kept by every step. `LogCache` is the code
  in its own form, over the buffer array, the LRU ring and the log record; each of its methods takes
  steps of the machine, so every theorem about reachable states holds of it.
- **File system** (`Bitmap`, `FsTree`, `FileContent`, `BlockNeed`, `FsStores`, `FileSystem`). Block trees of depth up to three,
  the bitmap allocator, and the byte-level `readi`, `writei`, `fileread` and `filewrite`. A position
  in a tree is a path; the invariant says which blocks the positions own. A write fails exactly when
  there are fewer free blocks than it lacks. `FsRecovery` puts the file system on the log: its stores
  are log_writes of the machine, inodes included, and crashes leave a sound file system.
- **User allocator** (`FreeRing`, `FirstFit`, `Umalloc`). The circular first-fit list of section 8.7
  of The C Programming Language, 2nd edition.
- **Page frames and page tables** (`PageTables`, `FrameList`, `AddressSpaces`, `KernelMap`,
  `UserSpace`, `Vm`). 32-bit two-level paging as in section 4.3 of the Intel SDM, volume 3A, the frame
  free list threaded through the free pages, and a use for every frame. Each operation that can run
  out of memory does so exactly when there are fewer free frames than it needs.
- **Pipe** (`PipeBuffer`, `PipeProtocol`). The ring buffer with wrapping counters, and the sleep and
  wakeup protocol for any number of readers and writers.
- **Shell parser** (`ShellGrammar`, `ShellTheorems`, `ShellPlaces`, `ShellUnique`, `ShellComplete`,
  `Shell`). The grammar and its derivations, and a second account of the language that knows neither
  tokens nor derivations, only which command stands between two places of the text; the two agree.
- **grep's matcher** (`Grep`). Patterns as the lists of items they must be read as.

Some promises one might expect are false of this code. Each has a concrete run or input that shows
it, and a condition under which it holds:

- A commit is not always all-or-nothing. Slots named by the header on disk are overwritten in place
  by the next commit. `TornCommit.CrashTears` is a run whose crash mixes two committed versions;
  `CommitCrash.CommitIsAtomicIffSafe` gives the exact condition, over every state in which the machine
  can stop during the commit, and `CommitCrash.SparedHeaderIsSafe` and `CommitCrash.ChangesIsRelogged`
  say what it asks of the operations that are committed.
- A `pipewrite` that returns -1 wakes no reader. `PipeProtocol.LostWakeup` is a run that leaves a reader
  asleep on a full pipe; `PipeProtocol.WakeupLostExactly` names the one step that breaks the promise,
  which only a killed writer takes, and `PipeProtocol.WellUntilLost` says so of whole runs.
- `malloc` rounds its byte count in 32 bits. `Umalloc.NUnitsOverflow` is the failing input and
  `Umalloc.NUnitsSuffice` the exact condition. `morecore` passes a 32-bit byte count to `sbrk`;
  `Umalloc.SbrkRequestNegative` and `Umalloc.SbrkRequestExact` do the same for it.

Where the code and its comments differ the model follows the code: `log.full` is set once and never
cleared; `sync` does nothing unless the log holds exactly LOGSIZE-1 blocks; the shell opens `>>` just
as it opens `>`; a failed `allocuvm` takes pages back but not the page tables it added.

## Model

| member | source | states |
|---|---|---|
| LogTheorems.StepKeeps | xv6-public/log.c:69-266 | every step of every process, the committer, recovery and a crash keep the invariant over cache, log and disk |
| LogTheorems.RunKeeps | xv6-public/log.c:69-266 | the invariant holds at the end of every run |
| LogTheorems.ReachableInv | xv6-public/bio.c:38-143 | the invariant holds in every state reachable from power-on with a well-formed disk |
| LogTheorems.SpecIsExpected | xv6-public/log.c:227-252 | the bookkeeping of "what was last logged" is a function of the run's log_writes and crashes alone |
| LogTheorems.ReadsReturnLastLogged | xv6-public/bio.c:62-107 | in every run a bread that completes returns what was last logged for its block, however many commits its home location has missed |
| LogTheorems.LockedIsLogical | xv6-public/bio.c:96-107 | a buffer just locked holds its block's logical content, whether it was cached, pinned or read from disk |
| LogTheorems.CommitsAreDurable | xv6-public/log.c:205-215 | with no operation active and no write_log running, recovery from the disk as it is gives exactly the logical disk, installed or not |
| LogTheorems.RecoveredIsSaved | xv6-public/log.c:116-123 | outside write_log recovery always gives the last committed state |
| LogTheorems.CrashInsideCommit | xv6-public/log.c:190-215 | after k slot writes recovery gives the last committed state with the first min(k, n_old) blocks of the old header replaced by their new contents |
| LogTheorems.TornIsRecovered | xv6-public/log.c:190-203 | what recovery gives at the current point of a commit is the torn state for that many slot writes; CommitCrash.RecoveredIsTorn extends it to every point |
| LogTheorems.TornIsOldWhen | xv6-public/log.c:190-203 | the torn state after k slot writes is the old state iff none of those slots changes a block of the old header |
| LogTheorems.TornIsNewWhen | xv6-public/log.c:190-203 | it is the new state iff every changed block is one of those |
| LogTheorems.TornIffUnsafe | xv6-public/log.c:190-203 | some number of slot writes gives neither the old nor the new state iff the commit is not Safe: it changes a block of the on-disk header and some other block |
| CommitCrash.CommitStable | xv6-public/log.c:190-203 | whatever other processes do, a step that stays in the commit keeps header, log entries, pinned contents and committed state |
| CommitCrash.RecoveredIsTorn | xv6-public/log.c:190-203 | at every state a commit passes through, recovery from the disk gives the torn state for the slots written so far |
| CommitCrash.HeaderGivesOutcome | xv6-public/log.c:99-114 | after the header write recovery from the disk gives the pinned contents of the logged blocks and the old contents of the others |
| CommitCrash.CommitEnds | xv6-public/log.c:205-215 | wherever in the commit the header is written, what recovery then gives is the outcome as it stood when the commit began |
| CommitCrash.Drain | xv6-public/bio.c:119-143 | while a commit runs, those who use buffers can lock and release them one by one until none is in use |
| CommitCrash.SlotsMade | xv6-public/log.c:190-203 | a commit of fewer than LOGSIZE blocks can get to any number of slot writes |
| CommitCrash.CommitIsAtomicIffSafe | xv6-public/log.c:190-215 | recovery gives all old or all new at every state the commit passes through iff the commit is Safe (changes no block of the on-disk header, or one and nothing else) or writes no slot at all |
| CommitCrash.SparedHeaderIsSafe | xv6-public/log.c:217-252 | operations that log no block of the on-disk header, and release none changed but unlogged, lead to a Safe commit |
| CommitCrash.ChangesIsRelogged | xv6-public/log.c:217-252 | a commit changes a block iff its last logged content differs from that when the group of operations began, whatever other blocks were released changed but unlogged |
| TornCommit.CrashTears | xv6-public/log.c:190-215 | for any two different contents there is a reachable state in which recovery gives the new content of one block and the old content of another that was committed with it |
| LogTheorems.CommitPoint | xv6-public/log.c:99-114 | once the header is written recovery gives the new state, which is the logical one |
| LogTheorems.CrashKeepsSaved | xv6-public/log.c:254-266 | a crash anywhere in an install or in recovery does not change what recovery gives |
| LogTheorems.RecoveryIsIdempotent | xv6-public/log.c:69-123 | recovery crashed any number of times, at any points, ends with every home block at its last committed content |
| LogTheorems.ProtocolHolds | xv6-public/log.c:125-187 | outstanding counts the operations, a commit runs alone, n stays within lh.block, and the panics about the protocol are unreachable |
| LogTheorems.DirtyIsLogged | xv6-public/log.c:227-252 | each block has one buffer, and outside an install the dirty buffers are exactly those of lh.block[0..n) |
| LogTheorems.FullLogCannotCommit | xv6-public/bio.c:79-93 | a commit of LOGSIZE blocks finds no buffer for its first slot, so no slot is written past the log region |
| LogTheorems.IdleLogHasRoom | xv6-public/log.c:254-266 | at every idle point n <= LOGSIZE-2, so a user's call to sync returns -1 |
| LogTheorems.SleeperHasWaker | xv6-public/log.c:125-187 | in every reachable state in which begin_op would sleep, some process is committing or has an operation to end |
| LogInvariant.CleanBufferMeansRoom | xv6-public/param.h:11-12 | NBUF = LOGSIZE: a clean buffer means fewer than LOGSIZE pinned entries |
| LogInvariant.AllDirtyMeansFull | xv6-public/param.h:11-12 | the converse: if all buffers, or all but one, are pinned then the log has as many entries |
| LogInvariant.LogWriteInBounds | xv6-public/log.c:227-252 | the locked part of log_write never indexes past lh.block, though the size check was made before the lock |
| LogInvariant.RecoveredCases | xv6-public/log.c:69-83 | replaying the slots in order gives, for each block, its slot if the header names it and its home block if not |
| LogModel.PutHeadWords | xv6-public/log.c:99-114 | the header block that write_head makes reads back as n and the first n block numbers |
| LogSteps.StepLogWrite | xv6-public/log.c:227-252 | log_write, absorbed or appended, keeps the invariant |
| LogSteps.StepLastEndOp | xv6-public/log.c:147-187 | the end_op that starts a commit keeps the invariant |
| LogSteps.StepSlotWrite | xv6-public/log.c:190-203 | a slot write keeps the invariant and stays inside the log region |
| LogSteps.StepCommit | xv6-public/log.c:205-215 | the header write that ends a commit keeps the invariant |
| LogSteps.StepInstallWrite | xv6-public/log.c:69-83 | a home write of install_trans keeps the invariant |
| LogSteps.StepReadHeader | xv6-public/log.c:85-97 | read_head at boot keeps the invariant |
| BufferRing.Unlinked | xv6-public/bio.c:122-143 | the two stores that unlink a buffer leave a ring without it, in the same order |
| BufferRing.PushedFront | xv6-public/bio.c:38-57 | the four stores that insert at the head leave a ring with the buffer first |
| BufferRing.Ring.MoveToFront | xv6-public/bio.c:122-143 | the ring stays a doubly linked ring of the same buffers, this one first and the rest in order |
| LogCache.Storage.constructor | xv6-public/bio.c:38-57 | power-on: empty buffers on the LRU ring, and the machine's boot state |
| LogCache.Storage.Iderw | xv6-public/memide.c:38-60 | a dirty buffer goes to its block of the disk, else the block comes to the buffer, and nothing else changes; a panic exactly for a buffer not held, with nothing to do, or out of range |
| LogCache.Storage.Lookup | xv6-public/bio.c:62-77 | finds the buffer that caches the block, if one does |
| LogCache.Storage.Victim | xv6-public/bio.c:79-93 | the least recently used buffer that is neither referenced nor dirty, or none exists |
| LogCache.Storage.Bget | xv6-public/bio.c:62-94 | takes a Get or Recycle step of the machine; a recycled buffer is the least recently used one that is neither referenced nor dirty; the panic happens exactly when the block is not cached and no buffer is free |
| LogCache.Storage.Bread | xv6-public/bio.c:96-107 | the caller holds the block's one buffer; it has the logical content of a home block and the disk's content of a log block; nothing else changes; the panic exactly as in bget |
| LogCache.BufferLeft | xv6-public/bio.c:79-93 | with nobody else in the cache and n below LOGSIZE, bget finds a buffer |
| LogCache.Storage.Brelse | xv6-public/bio.c:119-143 | takes a Release step; a buffer with no references left becomes most recently used and the others keep their order; a panic exactly for a buffer the caller does not hold |
| LogCache.Storage.LogWrite | xv6-public/log.c:217-252 | takes the LogCheck and LogWrite steps; "too big a transaction" exactly when n has reached LOGSIZE |
| LogCache.Storage.BeginOp | xv6-public/log.c:125-145 | one pass of the loop: the operation begins iff no commit runs and n is below LOGSIZE, else it sleeps, nothing changes, and a committer or an active operation is there to wake it |
| LogCache.Storage.WriteLog | xv6-public/log.c:189-203 | takes one slot step for each entry and keeps everything but the slots; bget panics iff n is LOGSIZE |
| LogCache.Storage.WriteHead | xv6-public/log.c:99-114 | takes the header step; no panic is possible |
| LogCache.Storage.Commit | xv6-public/log.c:205-215 | a commit reaches its commit point iff n is below LOGSIZE, else bget panics |
| LogCache.Storage.InstallTrans | xv6-public/log.c:69-83 | takes one install step for each entry; no panic is possible |
| LogCache.Storage.Sync | xv6-public/log.c:254-266 | -1 and no change unless n is LOGSIZE-1, as always at an idle point; else the log is installed and empty, without a panic |
| LogCache.Storage.RecoverFromLog | xv6-public/log.c:116-123 | never panics; afterwards every home block on disk holds its last committed content and the log is empty |
| LogCache.Storage.EndOp | xv6-public/log.c:147-187 | after the last end_op recovery from the disk gives the logical content of every block; it panics iff it was the last and n is LOGSIZE |
| FsTree.Allocated | xv6-public/fs.c:55-78 | marking and zeroing a free block keeps ownership, with that block loose |
| FsTree.Linked | xv6-public/fs.c:373-482 | storing a loose block at an empty position gives it exactly that owner and moves no other position |
| FsTree.Freed | xv6-public/fs.c:484-582 | unmarking a childless block and clearing its position leaves ownership exact |
| FsTree.PathOfInjective | xv6-public/fs.c:373-482 | different block indexes up to MAXFILE lead to different positions |
| FsTree.PathOfOnto | xv6-public/fs.h:24-29 | every data position of the tree is the position of some block index |
| FsTree.PathOfOrder | xv6-public/fs.c:373-482 | consecutive block indexes lead to positions in the order of the tree: direct blocks, then each index block entry by entry |
| FsTree.NumberingForced | xv6-public/fs.c:373-482 | that numbering is the only one: any numbering of all data positions in the order of the tree is the one bmap uses |
| FsTree.BlocksDistinct | xv6-public/fs.c:373-482 | bmap is injective over all pairs of inode and block index |
| FsTree.MarkedIffOwned | xv6-public/fs.c:55-98 | a block past the metadata is marked in the bitmap iff exactly one position holds it |
| Bitmap.BitWeight | xv6-public/fs.c:55-98 | bit k of a byte has the weight of the k-th power of two |
| FsTree.GrowsElsewhere | xv6-public/fs.c:373-482 | bmap for one index of one inode leaves the block of every other index of every inode where it was |
| FsTree.FreedExactly | xv6-public/fs.c:484-582 | after truncation a block is marked iff it was and did not belong to the truncated inode |
| FileContent.ContentBlocks | xv6-public/fs.c:597-660 | the content of a file is its blocks one after the other, byte for byte |
| FileSystem.Fs.constructor | xv6-public/fs.h:14-51 | a fresh image with empty inodes satisfies the ownership and no-hole invariants |
| FileSystem.Fs.FindFree | xv6-public/fs.c:55-78 | the first block whose bit is clear, over all bitmap blocks |
| FileSystem.Fs.Balloc | xv6-public/fs.c:41-78 | allocates and zeroes the first free block, or all blocks are marked |
| FileSystem.Fs.Bfree | xv6-public/fs.c:80-98 | clears one block's mark; the panic exactly when it was clear |
| FileSystem.Fs.Walk | xv6-public/fs.c:373-482 | one branch of bmap: what is missing on the way is allocated, what exists is untouched; it succeeds iff there are as many free blocks as positions missing, and takes exactly that many |
| FileSystem.Fs.Bmap | xv6-public/fs.c:373-482 | the block at the index's position, which NumberingForced fixes, new blocks zeroed; a mapped index writes and logs nothing; ownership kept; fails exactly out of range or with fewer free blocks than are missing |
| FileSystem.Fs.FreeBelow | xv6-public/fs.c:484-582 | one round of the nested loops frees an entry and all blocks below it, and touches nothing outside that index block's subtree |
| FileSystem.Fs.Itrunc | xv6-public/fs.c:484-582 | frees every data and index block of the inode exactly once, never a free block, and changes no other file |
| FileContent.WroteContent | xv6-public/fs.c:625-660 | bytes written through bmap splice the flat content of the file and of no other |
| FileContent.SpliceReads | xv6-public/fs.c:596-660 | a read of the written range returns what was written |
| FileSystem.Fs.Readi | xv6-public/fs.c:596-623 | returns exactly the slice of the file's content, -1 exactly for a bad range; allocates, writes and logs nothing |
| FileSystem.Fs.Writei | xv6-public/fs.c:625-660 | splices src into the file's content and changes no other file, or refuses exactly the bad ranges; no holes appear; panics exactly if there are fewer free blocks than the written range lacks, and then all are taken |
| FileSystem.Fs.Fileread | xv6-public/file.c:95-113 | reads the slice at the offset and moves it; calls no log_write, so it needs no transaction |
| FileSystem.Fs.Filewrite | xv6-public/file.c:115-156 | the chunk loop has the effect of one whole write when it fits, else of the whole chunks before the first refused one; panics exactly if there are fewer free blocks than that range lacks |
| BlockNeed.FreeTaken | xv6-public/fs.c:55-78 | marking a free block leaves one free block less |
| BlockNeed.GrownFilled | xv6-public/fs.c:373-482 | a bmap that succeeds fills exactly the positions missing on the way to its block |
| BlockNeed.SpentNext | xv6-public/fs.c:625-660 | one more block of a write takes what that block lacked and the earlier ones did not supply |
| BlockNeed.LackingJoin | xv6-public/file.c:115-156 | what a range of file blocks lacks is what a first part lacks and then what the rest lacks, with index blocks and a shared boundary block counted once |
| FileSystem.RoundShort | xv6-public/file.c:115-156 | a chunk that lacks blocks means that the whole write lacked them from the start |
| FileSystem.WroteAccepted | xv6-public/file.c:115-156 | a filewrite that ends has written exactly the chunks within the largest file, and there were blocks enough for them |
| FileSystem.DirtyFreed | xv6-public/fs.c:484-582 | every block that itrunc changed without log_write is free when it is done |
| FileSystem.TruncDone | xv6-public/fs.c:484-582 | once all addresses are clear, the inode owns nothing, other inodes own what they did, and the marks say so |
| FileSystem.SpliceTwice | xv6-public/file.c:115-156 | two adjacent writes are one write of the concatenation |
| FsRecovery.SoundFrame | xv6-public/fs.h:8-51 | the file system on a disk is given by the blocks in use: other contents of free and log blocks leave it sound with the same inodes and file contents |
| FsRecovery.StoreIsLogged | xv6-public/log.c:217-252 | a change to a held buffer followed by log_write is a run of the machine that makes it the logical content of its block and of no other |
| FsRecovery.RecoversLogical | xv6-public/log.c:205-215 | with no operation active and no write_log running, recovery gives a sound file system in which every file has the content the operations gave it |
| FsRecovery.OutcomeIsLogical | xv6-public/log.c:190-203 | what a commit brings about for a block is its last logged content |
| FsRecovery.CrashesLeaveSound | xv6-public/log.c:116-123 | in every run, with any number of crashes, whose commits are of sound file systems and are not torn, recovery always has a sound file system to give |
| FsRecovery.Iupdated | xv6-public/fs.c:223-239 | the block that iupdate writes reads back the inode, and every other inode as before |
| FsRecovery.StoresLogged | xv6-public/log.c:217-252 | in every run whose log_writes are the file system's stores in order, the logical disk is the file system's disk, with its inodes in the inode blocks |
| FsRecovery.AgreedSound | xv6-public/fs.h:8-51 | a disk that agrees with a sound file system on inodes and logged blocks is sound and has the same files |
| FsRecovery.OperationsSound | xv6-public/log.c:147-187 | operations whose stores end in a sound state leave a logical disk that meets what CrashesLeaveSound asks of a commit |
| FsRecovery.MethodsOnLog | xv6-public/fs.c:484-660 | calls of the methods of FileSystem, run as their log_writes, leave a sound logical disk on which every file has the content their contracts give |
| FreeRing.Inserted | xv6-public/umalloc.c:24-44 | inserting a block between its neighbours keeps an ordered ring and adds exactly its units |
| FreeRing.Merged | xv6-public/umalloc.c:33-43 | merging two touching neighbours keeps the ring and the same free units |
| FreeRing.MergedCoalesced | xv6-public/umalloc.c:33-43 | no two neighbours touch after the merge |
| FirstFit.GrownOnly | xv6-public/umalloc.c:46-61 | after morecore the only block that fits is the one its units became part of, with the blocks on both sides that they touch |
| Umalloc.Heap.constructor | xv6-public/umalloc.c:70-73 | the first call's list: base alone, empty |
| Umalloc.Heap.Search | xv6-public/umalloc.c:29-32 | from any roving start the search stops at the entry after which the block belongs |
| Umalloc.Heap.Free | xv6-public/umalloc.c:24-44 | the block's units become free; list ordered, coalesced, disjoint from live blocks; units conserved; freep is left at the last entry below the block |
| Umalloc.Heap.Morecore | xv6-public/umalloc.c:46-61 | units from sbrk join the free ones and some block then fits; if none did before, only the block they are part of |
| Umalloc.Heap.Take | xv6-public/umalloc.c:75-85 | exactly nunits leave the list as one live block, the end of the block taken from; freep is left at the entry before it |
| Umalloc.Heap.Malloc | xv6-public/umalloc.c:63-90 | returns a block of the right size disjoint from all others, iff one fits or sbrk grants: the end of the first block after freep that fits, or else of the block that the granted units became part of, with freep left at the entry before; morecore is called at most once |
| Umalloc.NothingFits | xv6-public/umalloc.c:74-89 | back at freep without a fit, no free block fits |
| Umalloc.ScanFirst | xv6-public/umalloc.c:74-89 | the block at which the scan stops is the first after freep, going round in address order, that fits |
| Umalloc.BigBlock | xv6-public/umalloc.c:46-61 | in a coalesced list consecutive free units lie in one block |
| Umalloc.HandedOut | xv6-public/umalloc.c:75-85 | handing out free units keeps the partition into free and live |
| Umalloc.NUnitsSuffice | xv6-public/umalloc.c:69-70 | the units hold nbytes iff the 32-bit sum does not overflow, with less than a unit to spare |
| Umalloc.NUnitsOverflow | xv6-public/umalloc.c:69-70 | malloc(0xffffffff) asks for a header and no bytes |
| Umalloc.SbrkRequestExact | xv6-public/umalloc.c:46-61 | the request that reaches sbrk as an int is the one morecore counts on iff nbytes is at most 0x7ffffff0, or so large that the unit count wraps to one |
| Umalloc.SbrkRequestNegative | xv6-public/umalloc.c:46-61 | malloc(0x7ffffff8) asks sbrk for a negative amount |
| FrameList.PopFree | xv6-public/kalloc.c:79-95 | taking the first frame leaves a list of exactly the other free frames, each once |
| FrameList.PushFree | xv6-public/kalloc.c:55-77 | pushing a frame that is not free leaves a list of exactly the free frames, each once |
| Vm.Memory.constructor | xv6-public/kalloc.c:26-44 | before freerange every frame after the kernel is in hand and none is free |
| Vm.Memory.Kalloc | xv6-public/kalloc.c:79-95 | a free frame becomes held and no word changes; 0 exactly when none is free |
| Vm.Memory.Kfree | xv6-public/kalloc.c:55-77 | the frame becomes free; the panic exactly for an address that is not a whole frame after the kernel |
| Vm.Memory.Freerange | xv6-public/kalloc.c:46-53 | exactly the whole frames between the addresses become free |
| PageTables.TableTied | xv6-public/vm.c:32-55 | a cleared page put in an empty directory slot keeps ownership exact |
| PageTables.EntryLeaf | xv6-public/vm.c:57-80 | writing one table entry changes one page of one address space |
| PageTables.EntryFields | xv6-public/mmu.h:105-113 | an entry reads back its frame and its flags |
| PageTables.AccessIsEntry | xv6-public/vm.c:32-55 | the access the two levels of the table give to an address, split ten, ten and twelve bits, is what the flat map has for its page; directory entries restrict nothing |
| AddressSpaces.WithTableSpaces | xv6-public/vm.c:40-53 | adding an empty table changes no address space |
| AddressSpaces.FlatMapped | xv6-public/vm.c:57-80 | a change at two indexes is a change at one page of the flat map |
| AddressSpaces.UserMapped | xv6-public/vm.c:219-249 | a user frame is what the page it was put at reads as |
| AddressSpaces.NoUserWhereUnmapped | xv6-public/vm.c:264-268 | skipping a slot without a table skips no mapped page and no owned frame |
| Vm.Memory.Walk | xv6-public/vm.c:32-55 | the table for the address, added only on request; every space reads as before; fails exactly without memory |
| Vm.Memory.MapRange | xv6-public/vm.c:57-80 | the pages before the stop map to consecutive frames, all other pages and spaces are unchanged, frames change owner accordingly |
| AddressSpaces.MappedSlots | xv6-public/vm.c:32-80 | mapping a range adds page tables for exactly the slots of its pages |
| Vm.Memory.MapPages | xv6-public/vm.c:57-80 | the same for addresses that need not be page-aligned; a remap panic only if some page of the range was present, and the pages mapped before it were not |
| Vm.Memory.Deallocuvm | xv6-public/vm.c:251-279 | removes exactly the mapped pages of [PGROUNDUP(newsz), oldsz) and frees exactly their frames; everything else is unchanged |
| AddressSpaces.ReleasedOthers | xv6-public/vm.c:281-298 | releasing one space changes no other space |
| Vm.Memory.Freevm | xv6-public/vm.c:281-298 | every frame of the space, page, table or directory, is freed once, and no other |
| KernelMap.SegmentsDisjoint | xv6-public/vm.c:103-115 | the rows of kmap do not overlap |
| KernelMap.PhysicalAtKernbase | xv6-public/vm.c:103-115 | all physical memory is mapped at KERNBASE in order, writable but for the kernel's text |
| KernelMap.DevicesInPlace | xv6-public/vm.c:103-115 | the pages of the devices are mapped to themselves, writable |
| KernelMap.NothingElseMapped | xv6-public/vm.c:103-115 | no other page is mapped |
| KernelMap.RowsMean | xv6-public/vm.c:103-136 | a space that reads as the rows of kmap reads page by page as physical memory at KERNBASE, devices in place and nothing else |
| KernelMap.RowsCover | xv6-public/vm.c:103-115 | whatever the size of the kernel, the rows of kmap need tables for the same slots |
| KernelMap.KernelTables | xv6-public/vm.c:103-115 | and those are 64 |
| Vm.Memory.Setupkvm | xv6-public/vm.c:117-136 | a space with exactly the kernel's pages, said page by page: physical memory at KERNBASE in order, writable but for the kernel's text, devices at their own addresses, nothing else; iff 65 frames are free, of which it takes exactly 65; on failure every frame has the use it had before |
| KernelMap.Undone | xv6-public/vm.c:281-298 | building any part of a space and then freeing it restores the use of every frame and leaves all else intact |
| Vm.Memory.Allocuvm | xv6-public/vm.c:219-249 | fresh zeroed pages for [oldsz, newsz); out of memory the range is unmapped and its frames free, exactly if there are fewer free frames than the pages and their missing tables need before the first page already mapped; else a panic iff a page there was mapped |
| UserSpace.TakenBackSame | xv6-public/vm.c:233-246 | a failed growth over unmapped pages leaves every space as it was |
| UserSpace.RolledBack | xv6-public/vm.c:233-246 | deallocuvm over the whole range undoes a growth that stopped anywhere in it |
| UserSpace.FreshAccess | xv6-public/vm.c:220-247 | a page that allocuvm adds can be read and written by the process |
| UserSpace.KernelAccess | xv6-public/vm.c:103-136 | no page of the kernel can be touched by a process |
| AddressSpaces.PagesForExact | xv6-public/mmu.h:98-100 | a size rounded up to pages is the pages that hold a byte below it |
| Vm.Memory.Copyuvm | xv6-public/vm.c:313-346 | equal words and flags in frames that were free, absent pages absent, the kernel's pages above as Setupkvm makes them, the source intact; 0 exactly if there are fewer free frames than the copy needs as far as page tables are present, and then every frame has its old use; else a panic iff a table is missing |
| KernelMap.CopyMade | xv6-public/vm.c:326-338 | one more copied page leaves the earlier copies as they are |
| KernelMap.CopyShort | xv6-public/vm.c:313-346 | a copy that is short of a frame at some page was short of it from the start |
| KernelMap.CopySuffices | xv6-public/vm.c:313-346 | a copy that gets to its end, or to a missing table, had frames enough for every page before |
| UserSpace.GrowOutcome | xv6-public/vm.c:230-247 | how a round of allocuvm's loop ends decides whether the frames were too few for the whole growth |
| PipeBuffer.Tests | xv6-public/pipe.c:85-114 | the full and empty tests on wrapped 32-bit counters say how many bytes are inside |
| PipeBuffer.PutHolds | xv6-public/pipe.c:93-93 | storing a byte at the wrapped index appends it to the contents |
| PipeBuffer.TakeHolds | xv6-public/pipe.c:113-117 | the byte at the wrapped index is the oldest one inside |
| PipeBuffer.ContentsAre | xv6-public/pipe.c:12-19 | the bytes between the wrapped counters are the ones written and not yet taken, in order |
| PipeBuffer.Pipe.Fill | xv6-public/pipe.c:77-98 | one stretch of pipewrite's loop appends bytes of addr until it is done or the pipe is full |
| PipeBuffer.Pipe.Drain | xv6-public/pipe.c:100-121 | piperead's loop takes the oldest bytes until n or empty |
| PipeProtocol.StepKeeps | xv6-public/pipe.c:59-121 | every step of every process keeps the pipe's invariant |
| PipeProtocol.RunKeeps | xv6-public/pipe.c:59-121 | so does every run, and what is written and read only grows |
| PipeProtocol.Fifo | xv6-public/pipe.c:77-121 | in every run the bytes that readers took are exactly the first ones written, in order, and the bytes inside are exactly the rest |
| PipeProtocol.Delivery | xv6-public/pipe.c:77-121 | in every run a pipewrite returns n only when all the bytes it was called with are in the pipe, once each and in order, and a piperead returns only with as many bytes as it was called for or, with fewer, when the pipe is empty; its bytes are an unbroken stretch of those written |
| PipeProtocol.RunAsAsked | xv6-public/pipe.c:77-121 | in every run each process is still at the bytes, or the count, it was called with |
| PipeProtocol.HolderMoves | xv6-public/pipe.c:77-121 | in every run the process that holds the lock can go on, and in one way only |
| PipeProtocol.EndOfFile | xv6-public/pipe.c:100-121 | a piperead at an empty pipe whose write end is closed returns with no byte |
| PipeProtocol.KillFrees | xv6-public/pipe.c:85-111 | a process asleep in the pipe that is killed while the lock is free gets out with an error |
| PipeProtocol.NoLostWakeup | xv6-public/proc.c:1155-1203 | while the lock is free a sleeping writer means a full pipe and, if no process was killed, a sleeping reader means an empty one, so they never wait for each other |
| PipeProtocol.WakeupLostExactly | xv6-public/pipe.c:85-92 | a step breaks the promise to readers iff it is a pipewrite giving up on an open full pipe while a reader is asleep, and only a killed process gives up so |
| PipeProtocol.WellUntilLost | xv6-public/pipe.c:85-92 | the promise holds throughout a run iff the run has no such step |
| PipeProtocol.RunReceives | xv6-public/pipe.c:100-121 | from any state, the bytes taken in a run are the stretch of written bytes between the counts taken before and after |
| PipeProtocol.LostWakeup | xv6-public/pipe.c:85-92 | a run that ends with a reader asleep on a full pipe and nobody to wake it |
| ShellGrammar.LexCovers | xv6-public/sh.c:262-308 | every character outside the tokens is blank |
| ShellGrammar.LexOrdered | xv6-public/sh.c:262-308 | tokens stand in order without overlap and word tokens are whole words |
| ShellTheorems.LineSound | xv6-public/sh.c:344-359 | what a line consumes is what its derivation spells |
| ShellTheorems.LineComplete | xv6-public/sh.c:344-359 | every derivation of a line is found, whatever may follow it |
| ShellTheorems.AcceptsExactly | xv6-public/sh.c:344-446 | a list of tokens has at most one derivation, found iff there is one |
| ShellTheorems.LineWords | xv6-public/sh.c:374-446 | the strings of the command tree are exactly the words of the line |
| ShellPlaces.LineStands | xv6-public/sh.c:344-446 | the tree of a derivation stands in the text where its tokens do: lists cut at a semicolon, background commands before an ampersand, pipelines cut at a bar, blocks in parentheses, files after an angle with its descriptor and mode, arguments the other words, in order |
| ShellUnique.LineOnce | xv6-public/sh.c:344-446 | at most one command stands between two places of a text |
| ShellUnique.WordsOnce | xv6-public/sh.c:374-446 | which words are arguments and which are files, how they are opened and in what order, is determined by the text |
| ShellComplete.StandsDerived | xv6-public/sh.c:327-446 | a command that stands in the text is the tree of a derivation from the text's tokens |
| Shell.DerivesWhatStands | xv6-public/sh.c:327-342 | a line derives a command iff that command stands in the line |
| Shell.Parser.GetToken | xv6-public/sh.c:265-308 | returns the next token of the line and moves the cursor past it |
| Shell.Parser.Peek | xv6-public/sh.c:310-320 | tells whether the next token begins with one of the characters, consuming none |
| Shell.Parser.ParseRedirs | xv6-public/sh.c:374-397 | wraps the command in the redirections that follow, the last outermost; panics exactly on a missing file |
| Shell.Parser.ParseExec | xv6-public/sh.c:415-446 | parses a block or a simple command with fewer than MAXARGS words; the command stands in the text from the cursor up to the next token |
| Shell.Parser.ParseBlock | xv6-public/sh.c:399-413 | parses a parenthesised line and its redirections |
| Shell.Parser.ParsePipe | xv6-public/sh.c:361-372 | parses commands joined by bars, nested to the right, the part before the first bar on the left; the command stands in the text from the cursor up to the next token |
| Shell.Parser.ParseLine | xv6-public/sh.c:344-359 | parses a line; the command stands in the text from the cursor up to the next token; terminates on the tokens left and the rank of the rule |
| Shell.NulTerminate | xv6-public/sh.c:448-493 | writes a NUL at the end of every string of the tree and nowhere else |
| Shell.WordsSurvive | xv6-public/sh.c:448-493 | terminators fall outside every word, so each word reads as it was typed |
| Shell.ParseCmd | xv6-public/sh.c:327-342 | returns a command iff it is the one that stands in the line, which is the one the line's tokens derive, and panics iff there is none; its strings are the line's words, each readable in the overwritten buffer |
| Grep.ItemsRender | xv6-public/grep.c:84-96 | reading a pattern as items loses nothing, and the end anchor is only ever last |
| Grep.ItemsRead | xv6-public/grep.c:84-96 | a pattern's items spell it, a character before a star is starred, and '$' is the end of the text where it is last and nowhere else |
| Grep.ReadingForced | xv6-public/grep.c:84-96 | there is no other list of items that does so |
| Grep.MatchHere | xv6-public/grep.c:84-96 | true iff some prefix of the text is a word of the pattern, the whole text if it ends in '$', for the one list of items the pattern can be read as |
| Grep.MatchStar | xv6-public/grep.c:98-106 | true iff some prefix of the text is a word of c* followed by the pattern |
| Grep.Match | xv6-public/grep.c:72-82 | true iff some substring of the text, or prefix after '^', is a word of the pattern |

## Left out

- Hardware, boot, interrupts, system calls, exec, fork, threads and the scheduler are not modelled.
- Spinlocks and memory order: a critical section is one step, a sleep-lock is exclusive ownership, and a process that would wait in begin_op or acquiresleep takes its step when it can.
- sync called by a user while operations are active takes no lock; only its call from end_op and at an idle point is modelled.
- The choice of buffer by least recent use is in LogCache, where Bget and Brelse state it; the state machine lets bget take any free buffer, so its theorems do not depend on that choice.
- Blocks that an operation changes and releases without log_write are marked stale and excluded from the statements about logical content; itrunc does this to index blocks it is freeing.
- The file system model stands on the logical disk that the log provides and counts log_write calls; device inodes, the inode cache, directories and path names are not modelled, nor is the limit on blocks in one operation.
- FsRecovery.CrashesLeaveSound: that the logical disk is sound when a commit starts is a hypothesis, which MethodsOnLog gives for calls of FileSystem's methods made one after another.
- FsRecovery.MethodsOnLog: that the log_writes of operations running at once come in the order of some sequence of calls, which inode locks are for, is a hypothesis.
- LogCache.Storage.BeginOp: the loop around the pass, which waits for other processes, is not in the class; the state machine has the step when it is enabled.
- LogCache.Storage.Commit: nobody else uses a buffer. A process outside any operation, as in fileread, may hold one while a commit runs; the state machine and CommitCrash allow for that, the class method does not.
- LogCache.Storage.EndOp: the same for the last end_op, which calls commit.
- LogCache.Storage.WriteLog: the same, as a part of commit.
- LogCache.Storage.WriteHead: the same, as a part of commit and of sync.
- LogCache.Storage.InstallTrans: the same while sync installs; at boot nobody else runs.
- LogCache.Storage.Sync: the same when end_op calls it.
- FileSystem.Fs.Balloc: "out of blocks" is an outcome (ok is false); what the caller has done before that panic is not stated.
- FileSystem.Fs.Writei: when it panics for want of blocks its partial effect is not stated, only that all blocks are then marked.
- FileSystem.Fs.Filewrite: the same.
- Umalloc.Heap.Malloc: what sbrk answers is a parameter, one answer per call; a grant is of the units morecore counts on, which sbrk can give only where SbrkRequestExact says the request is exact.
- Umalloc.Heap.Free: the argument is a block that malloc returned, as the C function requires.
- Vm.Memory.Deallocuvm: oldsz is at most KERNBASE, as every caller passes; beyond it the loop would free kernel pages.
- Vm.Memory.Copyuvm: sz is at most KERNBASE, as a process size is; a space left half built by the panic is not described.
- Vm.Memory.MapPages: the size is positive and the range does not wrap, as for every caller; addresses step as page numbers.
- Vm.Memory.Kfree: the frame is not already free; the code does not check this and the callers' contracts prove it.
- copyout, uva2ka, clearpteu, inituvm, loaduvm and shared page directories are left out; they would add easy members or break frame ownership.
- PipeProtocol: file descriptors and their counts are left out; an end is closed when no call on it is in progress.
- PipeProtocol.NoLostWakeup: a reader can stay asleep after a killed writer gave up, as LostWakeup shows; WakeupLostExactly has the exact step.
- Shell.ParseCmd: tree nodes are values; the code links an exec node under redirections first and fills its arguments later, which WithArg reproduces on the value. Running commands is left out.
- grep's line buffering and all other user programs are left out.
