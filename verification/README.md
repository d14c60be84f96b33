# Verified model of an xv6 kernel

A Dafny model of the stateful core of this xv6 kernel and of two of its user
programs, with proofs about every run, every input or every reachable state. Each
component is modelled in the form it has in C: an object that the C code updates in
place is a class whose methods have the C loops, and a protocol between processes is
a step system in which one step is one critical section, one test or assignment made
without a lock, one compare-and-swap or one single-block disk write.

| files | component | main results |
|---|---|---|
| `LogProtocol`, `LogSafety`, `LogBudget`, `Log` | redo log (`log.c`) | crash atomicity over whole runs, idempotent recovery, admission, when `log_write` can panic |
| `LogOverrun`, `LogReader` | what is false of it | exactly which logs make operations atomic; a reader that stops a commit |
| `Bio` | buffer cache and disk (`bio.c`, `memide.c`) | the cache is a plain block map with an LRU list; when `bget` finds a buffer |
| `FsLayout`, `FsState`, `FsTrunc`, `FsLogged`, `Fs` | block allocator, block map, file data (`fs.c`, `file.c`) | one owner per block, files are byte sequences, exactly which blocks a write logs |
| `FsDisk` | the disk read byte by byte (`fs.h`) | a plain reading of the layout finds every inode, every byte of every file and every bitmap bit |
| `FsWitness` | a file system at the limit | ten blocks per transaction are enough for filewrite's chunk, and needed |
| `FsCrash` | the file system over the log | if what operations write keeps it in order, it is in order after every crash |
| `VmState`, `VmEffect`, `Vm` | frames and page tables (`kalloc.c`, `vm.c`) | frames are partitioned, the kernel's mappings entry by entry, growth is undone on failure, copies are exact, when `copyuvm` loses a frame |
| `Heap`, `Malloc` | user heap (`umalloc.c`) | blocks tile the memory obtained, free neighbours are fused, `sbrk` is asked only when no free block fits |
| `Proc`, `ProcProtocol` | process table (`proc.c`) | no missed exit, live parents, lock-free slots and pids, what a failed `fork` has looked at |
| `Sleep` | sleep and wakeup (`proc.c`), lock by lock | no wakeup falls between releasing the lock and being asleep, so sleep is one step; no deadlock |
| `Pipe` | pipes (`pipe.c`) | FIFO through the ring across counter wraparound, what every call returns, no lost wakeup |
| `Grep` | pattern matcher (`grep.c`) | sound and complete against the language of the pattern, which is pinned to substrings of the text |
| `ShellGrammar`, `ShellText`, `Shell` | command parser (`sh.c`) | accepts exactly its grammar, strings survive in-place termination |
| `ShellAccept`, `ShellMeaning`, `ShellOrder` | references for it | which lines there are, in one pass; what a line means, read from the top; how a command follows the text |
| `Common`, `Blocks` | options, words in blocks | |

How the C code is rendered:

- A block write is atomic; `memide.c` is the disk. A crash is a step that keeps only the disk, and a panic is treated like one.
- A `panic` or an error return is a result of the method (`false`, `None`, `Panicked`), never a precondition, except where the text below says that the C code demands something of its callers.
- Addresses are numbers: blocks, frames (a kernel pointer to a frame is the frame's number) and, in the user heap, units of one `Header`. `uint` arithmetic that can wrap is written with an explicit modulus.
- What `sbrk`, the scheduler, other processes and `p->killed` do are parameters or steps.
- `Valid()` of each class is its invariant. In `Fs` it says that a bitmap bit is set exactly when the block is metadata or the one block of one inode that its owner entry names; in `Vm` that every frame of the pool is free, in use for one purpose, or in the hands of a running call.

Properties that are false of the code, with the exact condition under which they hold:

- Operations within budget are not atomic in every log. `log_write` tests the size of the group before it takes `log.lock` (`log.c:218-223`), so two operations can both pass with one slot left and the group outgrows the log. In a log of fewer than `LOGSIZE` blocks `write_log` then writes past it with nothing committed (`LogOverrun.UncommittedWriteLeaks`). In a log of `LOGSIZE` blocks, which is what `mkfs.c:25` makes, such a group has all `NBUF` buffers pinned, and its commit panics in `bget` before the first disk write (`LogOverrun.OverfullStops`); so on that disk operations within budget are atomic without further condition (`LogOverrun.MkfsIsAtomic`). In general, on a disk with blocks behind the log, they are atomic exactly when the log has `LOGSIZE` blocks or more, or no slot at all, or more blocks than the rest of the disk (`LogOverrun.CrashAtomicIff`). The lemmas of `LogSafety` about the disk are for runs whose groups fit the log or leave their commit no buffer, which `LogBudget.BudgetFits` and `LogBudget.TestedAloneFits` provide.
- `log_write` is not free of its "too big a transaction" panic for operations within budget: it is exactly when the log has more than `LOGSIZE` blocks, or the disk has too few others to fill it (`LogBudget.NeverTooBigIff`). The test also comes before absorption, so rewriting a logged block can panic in every log with a slot on a disk that can fill it (`LogBudget.AbsorptionCanPanic`).
- A commit can run out of buffers: if the other processes keep the buffers they use while it runs, it completes exactly when the blocks of its group and the clean buffers in use by others are together fewer than `NBUF` (`Log.Log.Commit`). A reader that comes or goes in between changes the count: what decides is whether a buffer is spare at each `bread`, as `Log.Log.LogBlock` says of one turn of `write_log`. `NBUF` equals `LOGSIZE`, and readers hold buffers outside any operation: 29 logged blocks and one reader are enough (`LogReader.ReaderStopsCommit`).
- A writer killed in mid call loses a wakeup exactly when a reader sleeps and more than `PIPESIZE` bytes of the write remain (`PipeProtocol.KilledWriterIff`), and that happens (`PipeProtocol.KilledWriterLoses`).
- `copyuvm` returns every frame it took, unless `mappages` fails: then one frame is neither free nor in use. Which of the two happens is decided by the number of free frames before the call (`Vm.Machine.Copyuvm`, `Vm.LeakHappens`).
- `malloc`'s arithmetic is right exactly for requests of at most 0x7FFFFFF0 bytes (`Malloc.MallocLimit`). Beyond that the byte count is zero or negative for `sbrk`, which succeeds without giving the memory, and `malloc` puts a block on its list that is not there (`Malloc.Allocator.Malloc`, `Malloc.HugeRequest`); and from 0xFFFFFFF9 on, where `nbytes + sizeof(Header) - 1` wraps, the block is too small (`Malloc.UnitsSuffice`).
- Pids are unique until the counter has gone round, and then equal exactly when a multiple of 2^32 calls lies between them (`ProcProtocol.PidsEqualIff`).
- `>>` does not append: a line and the line with `>` for every `>>` build the same command (`ShellText.LinePlain`).

## Model

| member | source | states |
|---|---|---|
| LogProtocol.WriteLogKeeps | log.c:177-190 | copying one modified block to its log slot keeps the disk recoverable to the same committed contents |
| LogProtocol.WriteHeadKeeps | log.c:99-113 | writing the header is the commit point: at that one block write the committed contents become those with all pending writes applied, in order |
| LogProtocol.InstallKeeps | log.c:69-82 | copying one logged block home keeps the committed contents, in a commit and in recovery |
| LogProtocol.EraseKeeps | log.c:192-202 | erasing the header after installation keeps the committed contents |
| LogProtocol.AppendKeeps | log.c:223-232 | a logged write changes what readers see and what is pending, and not the committed contents, absorbed or not and however full the log has become since the test |
| LogProtocol.EndKeeps | log.c:145-174 | ending an operation starts a commit just when it is the last, and keeps the invariant if the group fits the log or leaves the commit no buffer |
| LogProtocol.InvKeeps | log.c:69-233 | every step of the protocol, log_write's unlocked test included, keeps the whole invariant, for any interleaving and any crash, as long as the groups that are committed fit the log or leave their commit no buffer |
| LogProtocol.OpsInvKeeps | log.c:125-233 | every step keeps the accounts of operations, sleepers and writes, whether groups fit or not |
| LogSafety.CrashAtomicity | log.c:69-202 | cut the power at any state of a run whose groups fitted the log or left their commit no buffer: recovery gives the home blocks exactly the effect of the groups committed so far, and that list is a prefix of every later one |
| LogSafety.OperationAtomicity | log.c:125-202 | if a committed group has any write of an operation it has all of them, in order; the operation has ended and no other group names it |
| LogSafety.RecoversBoundary | log.c:125-202 | while groups fit the log, a crash goes back to a moment when no operation was in progress: once anything is committed, recovery yields exactly what programs could read when the last committed group was complete |
| LogSafety.RecoveryIdempotent | log.c:69-122 | crash recovery at any block write, any number of times: when it completes, the home blocks are those of one uninterrupted recovery |
| LogSafety.ReadsSeeWrites | log.c:213-233 | while groups fit the log, whenever the system is up every home block reads as the committed groups followed by the pending writes |
| LogSafety.QuiescentIsDurable | log.c:145-202 | while groups fit the log, with no operation running every write made is committed and at its home on disk |
| LogSafety.EndOpNeverPanics | log.c:145-155 | in no run does end_op find a commit in progress |
| LogSafety.SleepersAreWoken | log.c:125-141 | while a process is asleep in begin_op a commit is in progress, or an operation runs and lh.n plus MAXOPBLOCKS for each operation and one more exceeds LOGSIZE |
| LogBudget.AdmissionIsSound | log.c:125-141 | if every operation logs at most MAXOPBLOCKS blocks, lh.n plus all unspent budgets stays within LOGSIZE |
| LogBudget.NeverTooBigIff | log.c:213-219 | the size panic is unreachable for operations with budget left if and only if the log has more than LOGSIZE blocks or the rest of the disk cannot fill it |
| LogBudget.AbsorptionCanPanic | log.c:218-228 | some run of operations within budget reaches a state where rewriting an already logged block panics if and only if the log has a slot and the rest of the disk can fill it |
| LogBudget.BudgetFits | log.c:125-141 | operations within budget never start to write a group that is larger than the log, if the log has LOGSIZE blocks or more, or no slot, or more blocks than the rest of the disk |
| LogBudget.TestedAloneFits | log.c:213-233 | nor do operations of any size of which no two are between log_write's test and its append |
| LogOverrun.UncommittedWriteLeaks | log.c:213-233 | in every other log, with blocks behind it, operations within budget reach a state where a block behind the log is overwritten and nothing is committed |
| LogOverrun.OverfullStops | bio.c:81-92 | in a log of LOGSIZE blocks a run of operations within budget reaches the commit of a group that does not fit, and no step from there changes the disk |
| LogOverrun.CrashAtomicIff | log.c:213-233 | so crash atomicity of operations within budget holds if and only if the log has LOGSIZE blocks or more, or no slot, or more blocks than the rest of the disk |
| LogOverrun.MkfsIsAtomic | mkfs.c:94-103 | in particular it holds at every state of every run of operations within budget on the disk that mkfs makes |
| Log.EncodeHeader | log.c:99-113 | the header block built from lh has lh.n as its first word and the block numbers as the next ones, decodes to lh, and is untouched past them |
| Log.DecodeHeader | log.c:85-96 | reads back exactly the listed block numbers, which follow the count word by word |
| Log.Log.constructor | log.c:53-67 | powering on over a recoverable disk starts a run of the protocol |
| Log.Log.LogBlock | log.c:182-189 | one turn of write_log is one protocol step, and is made exactly when some buffer is neither pinned nor in use at that moment |
| Log.Log.WriteLog | log.c:177-190 | write_log takes one protocol step per block; if the other processes keep their buffers meanwhile, it completes exactly when some buffer is neither pinned nor in use |
| Log.Log.InstallTrans | log.c:69-82 | install_trans takes one protocol step per block and completes, with a spare buffer in a commit and with an idle cache in recovery; other processes keep their buffers |
| Log.Log.WriteHead | log.c:99-113 | the header block on disk lists lh, nothing else on disk changes, exactly when some buffer is spare |
| Log.Log.Commit | log.c:192-202 | if the other processes keep their buffers meanwhile, the pending writes become one more durable group and the log is empty, if and only if the group is empty or its blocks and the clean buffers in use by others are fewer than NBUF |
| Log.Log.ReadHead | log.c:85-96 | lh becomes the list in the header block on disk |
| Log.Log.RecoverFromLog | log.c:115-122 | from whatever disk a crash left, the home blocks become those that recovery defines, and it never panics |
| Log.Log.BeginOp | log.c:125-141 | admits exactly when no commit runs and lh.n plus MAXOPBLOCKS for every operation including this one fits LOGSIZE, and otherwise sleeps |
| Log.Log.LogTest | log.c:218-221 | the test made without the lock passes exactly when lh.n is below LOGSIZE and below the log's size less one and an operation runs |
| Log.Log.LogAppend | log.c:223-232 | the block is pinned, reads as the new data from then on, and is put at the end of the list unless it is listed, whatever happened since the test |
| Log.Log.LogWrite | log.c:213-233 | a call that nobody comes between succeeds exactly when lh.n is below LOGSIZE and below the log's size less one and an operation runs, and leaves a log that fits |
| Log.Log.EndOp | log.c:145-174 | the last operation's end makes everything pending one durable group, and, if the other processes keep their buffers meanwhile, fails exactly when that group and the clean buffers in use by others fill the cache; with other operations running it touches no buffer |
| LogReader.ReaderStopsCommit | file.c:105-109 | from power-on, three operations within budget log 29 blocks that fit the log, a reader holds one clean buffer, and the last end_op panics |
| Bio.InsertLinked | bio.c:134-137 | splicing a buffer in after the head keeps next and prev one circular list of the intended order |
| Bio.RemoveLinked | bio.c:132-133 | unlinking a buffer does too |
| Bio.CleanOnDisk | bio.c:61-93 | a cached block without B_DIRTY is current on disk, so recycling it loses nothing |
| Bio.GettableIff | bio.c:61-93 | a block that nobody uses and that is not pinned can be got exactly when some buffer is neither pinned nor in use |
| Bio.SpareIff | bio.c:61-93 | there is such a buffer exactly when the pinned blocks and the clean buffers in use are together fewer than NBUF |
| Bio.Bcache.constructor | bio.c:38-56 | the list is a circular permutation of all buffers, and reads return the disk |
| Bio.Bcache.Lookup | bio.c:61-93 | finds the block's one buffer, or recycles the least recently used buffer that is unused and clean, or there is none; no block ever has two buffers |
| Bio.Bcache.Iderw | memide.c:38-60 | writes a dirty buffer or fills an invalid one, and panics exactly when unlocked, nothing to do, wrong disk or out of range |
| Bio.Bcache.Bread | bio.c:95-106 | the buffer returned is locked and holds the block's latest contents; fails exactly when no buffer can be had |
| Bio.Bcache.Bwrite | bio.c:108-116 | block and disk get the buffer's data and the pin is gone, exactly when the buffer is locked |
| Bio.Bcache.Brelse | bio.c:118-141 | unlocks, drops the reference, and moves the buffer to the front of the list just when nobody else refers to it |
| Bio.Bcache.CopyBlock | log.c:69-82 | one turn of install_trans or write_log: one block's contents land on another, on disk and for readers, and every other process keeps the buffers it uses |
| Blocks.GetPutWord | fs.c:386-391 | a word stored in a block reads back and no other word of the block changes |
| FsLayout.SetOne | fs.c:64-68 | or-ing in a clear bit sets that bit and no other |
| FsLayout.ClearOne | fs.c:89-93 | masking out a set bit clears that bit and no other |
| FsLayout.GetSetBit | fs.c:64-68 | marking a block in the bitmap block changes that block's bit alone |
| FsLayout.GetClearBit | fs.c:89-93 | clearing does too |
| FsLayout.GetPutInode | fs.c:217-237 | an inode written by iupdate is read back whole, and the other inodes in its block are unchanged |
| FsState.AllocFrame | fs.c:54-78 | marking and zeroing a free block disturbs no file, no inode and no other bit |
| FsState.ReleaseBits | fs.c:80-96 | freeing a block keeps every bit of the bitmap telling whether its block is in use |
| FsState.LinkDirect | fs.c:379-383 | a fresh block entered in addrs makes the file one block of zeros longer and keeps ownership exclusive |
| FsState.LinkIndirect | fs.c:388-389 | a fresh indirect block maps nothing yet |
| FsState.LinkThrough | fs.c:390-395 | a fresh block entered in the indirect block makes the file one block of zeros longer and moves no other block of any file |
| FsState.WriteText | fs.c:500-503 | writing a data block changes that block of that file alone |
| FsState.ReadBack | fs.c:450-512 | the bytes a write put there are the bytes a read of the same range gets, and the text around them is as it was |
| FsState.SplicedMore | file.c:134-152 | writing two chunks one after the other is writing them as one |
| FsTrunc.TruncOk | fs.c:403-436 | with an inode's blocks freed and its addresses cleared the file system is in order and every other file is where it was |
| Fs.FileSystem.constructor | fs.c:172-187 | a file system that is in order, with nothing logged and nothing written |
| Fs.FileSystem.LogWrite | log.c:213-233 | the block reads as the new data, and the disk stays what the log_writes in their order have made of the one at the start |
| Fs.FileSystem.Balloc | fs.c:54-78 | returns the first block not in use, now marked and zero, logging its bitmap block and itself; panics exactly when all blocks are in use |
| Fs.FileSystem.Bfree | fs.c:80-96 | clears the block's bit, and panics exactly when the block is already free |
| Fs.FileSystem.Bmap | fs.c:371-401 | an existing block's address, changing nothing; for the next block a fresh zero block of the file's own, with exactly the blocks this logs; panics exactly past MAXFILE or when the free blocks are too few for the block and the indirect block it may need |
| Fs.FileSystem.Iupdate | fs.c:217-237 | the inode's slot on disk holds what is in memory, other inodes keep theirs |
| Fs.FileSystem.Readi | fs.c:450-477 | -1 exactly for an offset past the end or a wrapping length, else exactly the bytes of the text from off, and nothing changes |
| Fs.FileSystem.Writei | fs.c:479-512 | -1 exactly for an offset past the end of the file or an end past MAXFILE blocks, and then nothing changes; else the text is spliced, the size is the maximum, no other file changes, the inode is current on disk, the blocks are exactly those the size calls for, and the blocks logged are exactly those that LoggedBy computes from the file system before the call; panics exactly when the free blocks are fewer than the growth needs, an indirect block included |
| FsLogged.FirstCount | fs.c:54-78 | the blocks that k calls of balloc take are the k lowest free ones, and k in number unless fewer are free |
| FsLogged.LogsNew | fs.c:371-401 | a turn of writei that adds a block logs the block, its bitmap block, and the indirect block with its bitmap block if that is new, and no more |
| FsLogged.LoggedCount | fs.c:479-512 | how many blocks a write logs: those of the file it touches, those it adds, the different bitmap blocks over these, the indirect block if it is old, and the inode's block if the size grows |
| FsLogged.WithinBudget | file.c:126-133 | which is at most the blocks touched and added, and three |
| FsLogged.TenBlocks | file.c:126-133 | from the last byte of the direct blocks, with four free blocks under four bitmap blocks, filewrite's chunk logs exactly MAXOPBLOCKS blocks |
| FsLogged.ElevenBlocks | file.c:126-133 | a byte more, from the next byte on, with five such free blocks, logs one block more |
| FsWitness.WitnessOk | mkfs.c:94-108 | there is a file system in order, laid out as by mkfs, with its first five free blocks under five bitmap blocks |
| FsWitness.ShareIsUsed | file.c:126-133 | in it writei carries out a write of filewrite's chunk that logs exactly MAXOPBLOCKS blocks |
| FsWitness.LargestWrite | file.c:126-133 | all writes of up to m bytes log at most MAXOPBLOCKS blocks if and only if m is at most 1536 |
| Fs.FileSystem.FileWrite | file.c:115-156 | a prefix of the data is spliced in at the offset and the offset moves by it; it is all of the data unless the next chunk starts past the end of the file or ends past MAXFILE blocks; no transaction logs more than MAXOPBLOCKS blocks |
| Fs.FileSystem.Itrunc | fs.c:403-436 | exactly the inode's blocks become free, it is left empty, no other file changes, and exactly the bitmap blocks over them and the inode's block are logged |
| FsDisk.InodeFound | fs.h:29-42 | between operations the fields of every inode are little-endian numbers at the offsets of struct dinode, eight inodes to a block from inodestart on |
| FsDisk.FileFound | fs.c:371-401 | between operations byte p of a file is byte p mod 512 of the block whose number stands at p / 512 in the inode, or from 12 on in the block that the thirteenth address leads to |
| FsDisk.BitmapFound | fs.h:44-48 | bit b mod 8 of the byte at b / 8 of the bitmap is set exactly when block b is in use |
| FsCrash.OperationsKeepOrder | fs.c:403-512 | what the file operations log_write takes a file system in order to one in order |
| FsCrash.LogIsApart | mkfs.c:94-108 | disks that differ only in the log's blocks hold the same file system |
| FsCrash.OrderAtBoundary | log.c:53-202 | if what is written between one moment without operations and the next keeps the file system in order, it is in order at every such moment of every run, crashes and commits included |
| FsCrash.FsSurvivesCrash | log.c:53-202 | then it is also in order after recovery from a crash at any state of a run whose groups fitted the log, with any number of operations in progress |
| FsCrash.SurvivesInBudget | mkfs.c:94-108 | and so on any disk whose log has LOGSIZE blocks or more, as mkfs's has, if operations keep to their budgets |
| VmState.TakeOk | kalloc.c:80-95 | taking the head of the free list keeps every frame free, in use or in hand, and only one of these |
| VmState.GiveOk | kalloc.c:55-77 | freeing a frame does too, and keeps the list linked through the frames |
| VmState.TableOk | vm.c:45-53 | a zeroed frame becomes a page table and maps nothing |
| VmState.UserOk | vm.c:72-74 | entering a frame for an unmapped user page changes that entry alone and gives the frame one user |
| VmState.UnmapOk | vm.c:268-276 | clearing a user entry gives up exactly the frame it named |
| Vm.KernelEntries | vm.c:105-115 | mapping the four regions of kmap one after the other makes every entry the one that KernelEntry gives for its page |
| Vm.Machine.constructor | kalloc.c:26-44 | before kinit no frame is free and none is in use |
| Vm.Machine.Kalloc | kalloc.c:80-95 | the first free frame, or 0 exactly when there is none |
| Vm.Machine.Kfree | kalloc.c:55-77 | the frame is filled with 1s except for the link to the old head, and becomes the head of the list; panics exactly outside the pool |
| Vm.Machine.Freerange | kalloc.c:46-53 | frees exactly the frames that lie wholly in the range |
| Vm.Machine.Walkpgdir | vm.c:32-55 | the table that holds the entry; allocating one changes no lookup in any address space, and it fails exactly when one is missing and cannot be had |
| Vm.Machine.Mappages | vm.c:57-80 | each page of the range maps to the corresponding frame with the permissions and nothing else changes; it fails exactly when the free frames are fewer than the missing page tables |
| Vm.Machine.Deallocuvm | vm.c:251-279 | exactly the mapped pages in the range go and their frames are free again; the step over a missing page table misses none, and the loop terminates |
| Vm.Machine.Allocuvm | vm.c:219-249 | exactly the missing pages appear, zeroed, each on a frame of its own; it fails exactly when the free frames are fewer than the pages and the page tables they lack, and then every user mapping, user frame and byte is as before |
| Vm.Machine.Freevm | vm.c:281-298 | exactly the directory's frames are free again and no other address space changes |
| Vm.Machine.Setupkvm | vm.c:117-136 | every entry of the new directory: memory up to PHYSTOP mapped at KERNBASE, writable except from KERNLINK to data, the devices mapped onto themselves and writable, all other pages unmapped; it succeeds exactly with 65 free frames or more, and else leaves nothing behind |
| Vm.Machine.Copyuvm | vm.c:313-343 | every page of the copy has the same bytes and flags on a frame of its own, the kernel's half is entry by entry that of setupkvm, the rest is unmapped; succeeds exactly if there are enough frames; on failure no frame in use changes and a frame is lost exactly under Leaks |
| Vm.LeakHappens | vm.c:329-342 | 66 free frames make any nonempty copyuvm lose a frame |
| Heap.BlocksDisjoint | umalloc.c:9-19 | no two blocks, free or live, overlap |
| Heap.FreeKeeps | umalloc.c:24-44 | free puts the block on the list in address order, fused with any neighbour it touches, and loses no unit |
| Heap.TakeWhole | umalloc.c:76-77 | an exact fit leaves the list and goes live |
| Heap.TakeTail | umalloc.c:78-82 | a larger block gives up its last units and stays on the list |
| Heap.GrowKeeps | umalloc.c:46-61 | memory from sbrk joins the heap as one block |
| Malloc.UnitsSuffice | umalloc.c:69-69 | the units after the header hold nbytes exactly when nbytes + sizeof(Header) - 1 does not wrap |
| Malloc.SbrkGives | proc.c:166-183 | an sbrk that does not fail gives the units that morecore asked for exactly when their byte count is below 2^31; else it gives fewer, none, or takes some away |
| Malloc.MallocLimit | umalloc.c:52-69 | the units suffice and sbrk can give them exactly for requests of at most 0x7FFFFFF0 bytes |
| Malloc.Allocator.constructor | umalloc.c:21-22 | nothing is live and nothing has been obtained |
| Malloc.Allocator.Search | umalloc.c:29-32 | the loop of free ends at the last block below bp |
| Malloc.Allocator.Free | umalloc.c:24-44 | the block is no longer live, its units are part of one free block, every unit ever obtained is still in exactly one block, and the next search starts at the block below |
| Malloc.Allocator.Morecore | umalloc.c:46-61 | on success a free block holds the new memory; on failure nothing changes |
| Malloc.Allocator.FindBlock | umalloc.c:74-88 | the search terminates and finds the first block behind freep, going round, that is large enough; it asks sbrk exactly when no block on the list is, changes nothing otherwise, and gives up only when sbrk refuses |
| Malloc.Allocator.MallocFrom | umalloc.c:73-89 | the same for a number of units, once there is a list |
| Malloc.Allocator.LiveIsBacked | umalloc.c:9-19 | while every unit of every block is memory the process has, so is every unit of a block that malloc has returned |
| Malloc.Allocator.Malloc | umalloc.c:63-90 | for every request, the block returned overlaps no live block and has the units asked for; if a free block fits, it is the end of the first one behind freep that does, and no memory is obtained; otherwise sbrk is asked, and the result is 0 exactly when it refuses; all blocks stay in memory the process has exactly when the call asks sbrk for nothing or for a count below 2^31 bytes |
| Malloc.HugeRequest | umalloc.c:46-61 | a first request above 0x7FFFFFF0 bytes that does not wrap returns a block although sbrk has given no memory |
| ProcTable.ExitedAt | proc.c:236-276 | what exit does to each slot: its children go to init, init and its parent are woken where they wait, it becomes a zombie |
| ProcTable.Ptable.constructor | proc.c:10-13 | every slot is unused |
| ProcTable.Ptable.Wakeup1 | proc.c:461-468 | exactly the processes asleep on the channel become runnable |
| ProcTable.Ptable.Exit | proc.c:236-276 | the table becomes the one exit defines |
| ProcTable.Ptable.Wait | proc.c:280-319 | collects the first zombie child if there is one and frees its slot, fails exactly without children or when killed, and else sleeps on itself |
| ProcTable.Ptable.ClaimSlot | proc.c:84-93 | claims the first unused slot, and fails exactly when there is none |
| ProcProtocol.ForkKeeps | proc.c:69-120 | every compare-and-swap and lock-free assignment of fork keeps the invariant |
| ProcProtocol.ExitKeeps | proc.c:236-276 | exit does, with its reparenting and wakeups |
| ProcProtocol.ReapKeeps | proc.c:280-319 | collecting a child does |
| ProcProtocol.NoMissedExit | proc.c:236-319 | in every run, with any number of processes, nobody sleeps in wait while a child of theirs is a zombie |
| ProcProtocol.ParentsAlive | proc.c:186-319 | every process until it is collected has a live parent other than itself, initproc apart, and initproc is alive |
| ProcProtocol.SlotsOwnedOnce | proc.c:84-120 | no two processes in fork hold the same slot, and a slot is an embryo exactly while someone holds it |
| ProcProtocol.ForkGoesOn | proc.c:69-231 | in every run a process in the middle of fork that has a processor has a next step, whatever the others do |
| ProcProtocol.ScanTries | proc.c:88-92 | in every run a scan that has come to a slot has tried each slot before it since it started, and found it in use |
| ProcProtocol.FailedScan | proc.c:88-93 | so a fork that finds no slot has found every slot of the table in use at some moment of its scan |
| ProcProtocol.AloneScan | proc.c:88-93 | with no other process interfering the scan does what ClaimSlot does |
| ProcProtocol.PidsEqualIff | proc.c:69-76 | the i-th and j-th pids handed out are equal exactly when a multiple of 2^32 lies between them |
| ProcProtocol.PidsUnique | proc.c:69-76 | until the counter has gone round no two slots carry the same pid |
| Sleep.NobodyInTheGap | proc.c:438-446 | while a process scans the table for sleepers, nobody is between releasing the caller's lock and being asleep: whoever counts as asleep is found |
| Sleep.NoWakeupLost | proc.c:423-476 | for any number of processes and channels: if data change only under the lock, and whoever takes a reason to sleep away calls wakeup before releasing it, then whoever is asleep has a reason, or the one who took it away still holds the lock and has yet to call |
| Sleep.WakeupMissesNobody | proc.c:462-476 | when wakeup1 has gone through the table nobody is asleep on its channel |
| Sleep.NoDeadlock | proc.c:423-476 | in no run does everybody who is not asleep wait for a lock: whoever has ptable.lock can go on at once, and whoever holds lk as soon as ptable.lock is free |
| Sleep.SleepIsAtomic | proc.c:438-446 | every step of the lock-by-lock system is a step, or none, of the system in which sleep releases the lock and falls asleep at once and wakeup is at once |
| Sleep.RunsAreAtomic | proc.c:423-476 | so every run of the former, state by state, is a run of the latter from a free lock with nobody asleep |
| Pipe.CountersTell | pipe.c:85-106 | the full and empty tests on wrapped counters decide the length of the queue |
| Pipe.CellsDistinct | pipe.c:93-93 | positions in flight use different cells |
| Pipe.PutManyOk | pipe.c:84-94 | what pipewrite copies into the cells joins the end of the queue, as much as there is room for |
| Pipe.TakeManyOk | pipe.c:113-117 | what piperead copies out of the cells are the oldest bytes of the queue, as many as there are up to n |
| Pipe.Ring.constructor | pipe.c:22-45 | an empty queue, open at both ends |
| Pipe.Ring.WriteSegment | pipe.c:78-98 | the array and counters become what PutMany makes of them; it returns exactly when all is copied, and else, with the ring full, fails exactly if the read end is closed or it is killed, and sleeps otherwise; it wakes readers unless it fails |
| Pipe.Ring.ReadSegment | pipe.c:100-121 | on an empty ring with an open write end it fails exactly if killed and sleeps otherwise; in all other cases it returns the bytes that TakeMany takes, none at the end of the file, and wakes writers |
| Pipe.Ring.Close | pipe.c:59-75 | one end closes, the sleepers at the other end are woken, and the pipe is freed exactly when both are closed |
| PipeProtocol.FifoKeeps | pipe.c:78-121 | every step keeps the ring a queue of the bytes copied in and not yet copied out |
| PipeProtocol.BytesInOrder | pipe.c:78-121 | in every interleaving what readers have copied out of the ring is a prefix of what writers have copied in, the ring holds the at most PIPESIZE bytes in between, and neither is ever rewritten |
| PipeProtocol.ReadReturns | pipe.c:100-121 | in every run a read takes the oldest bytes, as many as asked for or as there are, and returns their number, 0 at the end of the file; it sleeps, or returns -1 if killed, exactly when the pipe is empty and its write end open |
| PipeProtocol.WriteReturns | pipe.c:78-98 | in every run a write copies in what there is room for and returns its length once all is copied; short of room it returns -1 exactly if the read end is closed or it is killed, and sleeps otherwise |
| PipeProtocol.NeverLost | pipe.c:59-121 | with no process killed in mid call, a reader sleeps only on an empty pipe with an open writer and a writer only on a full one with an open reader |
| PipeProtocol.NeverBothAsleep | pipe.c:78-121 | a reader and a writer are never asleep together |
| PipeProtocol.KilledWriterIff | pipe.c:84-92 | a killed writer costs a wakeup exactly when a reader sleeps and more than PIPESIZE bytes remain |
| PipeProtocol.KilledWriterLoses | pipe.c:84-92 | a run from an empty pipe in which that happens |
| PipeProtocol.KilledReader | pipe.c:104-111 | a killed reader never costs one |
| PipeProtocol.KeepsSleepRules | pipe.c:59-121 | the calls keep the rules under which Sleep loses no wakeup, unless their process is killed |
| PipeProtocol.NeverLostLockByLock | pipe.c:78-121 | in every lock-by-lock run of clients that keep these rules, whenever the pipe lock is free, whoever sleeps at an open end has a reason to |
| Grep.Match | grep.c:72-83 | true exactly when some substring is in the language of the pattern, at the beginning for a leading ^ and up to the end for a final $ |
| Grep.MatchHere | grep.c:85-96 | true exactly when some prefix of the text is |
| Grep.MatchStar | grep.c:98-106 | true exactly when the rest of the pattern matches after some run of the starred character |
| Grep.InStar | grep.c:98-106 | the language of c* is the runs of characters that fit c |
| Grep.HereWord | grep.c:85-96 | a pattern that begins with characters other than * matches exactly where the text begins with them, a dot being any character, and the rest of the pattern matches behind |
| Grep.HereRun | grep.c:98-106 | one that begins with c* matches exactly where the rest matches behind some run of characters fitting c |
| Grep.HereEnd | grep.c:87-92 | the empty pattern matches everywhere, and $ alone exactly at the end |
| Grep.PlainSubstring | grep.c:72-83 | a pattern without special characters matches exactly the texts it is a substring of |
| Grep.PlainSuffix | grep.c:85-96 | with a final $ exactly those it is a suffix of |
| Grep.PlainPrefix | grep.c:72-83 | with a leading ^ those it is a prefix of, and with both only itself |
| ShellGrammar.LineSound | sh.c:344-446 | what the parser returns prints as exactly the tokens it consumed, and is a line of the grammar |
| ShellGrammar.LineComplete | sh.c:344-446 | every line of the grammar is parsed back from its print, whatever closing parenthesis follows |
| ShellGrammar.AcceptsIff | sh.c:327-342 | a token list is accepted whole with a tree exactly when the tree is well formed and prints as the list, so the grammar is unambiguous |
| ShellAccept.AcceptsLines | sh.c:327-446 | the lines of the grammar are those that a single pass over the tokens accepts, which counts open parentheses and arguments and remembers what came last |
| ShellAccept.LineRead | sh.c:344-446 | the recursive descent stops, fails or succeeds where that pass does, at any depth of parentheses |
| ShellText.WordsFound | sh.c:265-308 | the words among the tokens are exactly the longest runs of word characters in the line |
| ShellText.LineSpans | sh.c:195-258 | a command refers to exactly the words it was written with |
| ShellText.LinePlain | sh.c:388-393 | replacing every >> by > changes nothing in the command a line stands for |
| ShellMeaning.MeaningRedir | sh.c:374-397 | the last redirection of a command outside parentheses is the outermost, wherever it stands among the arguments |
| ShellMeaning.MeaningParens | sh.c:399-413 | parentheses mean what is inside them |
| ShellMeaning.LineMeans | sh.c:344-446 | the command a syntax tree stands for is the one its tokens mean: split at the first semicolon outside parentheses, then off with a final ampersand, then split at the first bar, then the redirections from the last to the first, then parentheses or words |
| ShellOrder.LineInOrder | sh.c:344-446 | in it the strings left of a pipe or list end before the bar or semicolon and the strings right of it begin behind, the ampersand comes behind its command, arguments are in the order of the text, < opens for reading as 0, > and >> for writing and creating as 1, and the redirection written first is inside |
| ShellOrder.LexRuns | sh.c:292-298 | where every operator has its file, a run of > is one operator |
| ShellOrder.LineFollows | sh.c:344-446 | and there are as many pipes, lists, background commands, inputs and outputs in it as there are bars, semicolons, ampersands, < and runs of > in the text |
| ShellText.TerminatedWords | sh.c:448-493 | terminators at the ends of words fall inside no word, so every word is a C string |
| Shell.Parser.constructor | sh.c:327-332 | a line is the text before its first NUL |
| Shell.Parser.Gettoken | sh.c:265-308 | returns the next token and its bounds and consumes it, whatever spaces surround it |
| Shell.Parser.Peek | sh.c:310-320 | tells whether one of the symbols comes next, and consumes only spaces |
| Shell.Parser.Parseredirs | sh.c:374-397 | consumes the redirections that come next, and panics exactly when a file is missing |
| Shell.Parser.Parseline | sh.c:344-359 | succeeds exactly when the grammar has a line here, consumes it and builds the command that the consumed tokens mean; terminates |
| Shell.Parser.Parsepipe | sh.c:361-372 | the same for pipelines |
| Shell.Parser.Parseblock | sh.c:399-413 | the same for blocks |
| Shell.Parser.Parseexec | sh.c:415-446 | the same for simple commands with redirections before, between and after the arguments, at most nine of these |
| Shell.Parser.Nulterminate | sh.c:448-493 | writes NUL at the end of every string of the command and nowhere else |
| Shell.Parser.Parsecmd | sh.c:327-342 | accepts exactly the lines that the single pass accepts and consumes them whole; the command is what the tokens mean and follows the text in order and number of symbols, its strings are exactly the words of the line, and each is a C string afterwards |

## Left out

- Signals (`trap.c`, the signal part of `proc.c`), `kill`, the scheduler's loop and context switches, and the inside of spin locks: outside `Sleep` and the unlocked test of `log_write`, critical sections are single steps.
- Directories, path names, link counts, inode allocation and the inode cache (`fs.c:189-361`, `fs.c:514-671`, `sysfile.c`).
- Hardware, boot code, the console and `ide.c`; `mkfs.c` beyond the layout it produces.
- `exec.c`, `inituvm`, `loaduvm`, `clearpteu`, `copyout`, `uva2ka`, and system call argument checking.
- `runcmd` and the user programs other than the pattern matcher and the shell's parser; `grep`'s read loop.
- Fs.FileSystem.Readi: device inodes are excluded, since `devsw` is not part of this model.
- Fs.FileSystem.Writei: device inodes are excluded for the same reason.
- Fs.FileSystem.Bmap: is stated for block numbers up to the file's length in blocks, which is what readi and writei ask for; a larger one would leave a hole.
- FsCrash.FsSurvivesCrash: that what is written between two moments without operations keeps the file system in order is a premise; it is proved of operations that run one at a time (`FsCrash.OperationsKeepOrder`), and inode locks between concurrent ones are not modelled.
- LogOverrun.CrashAtomicIff: a disk that ends with the log is excluded, since `mkfs.c:102` puts the inodes behind it; what happens past the end of `log.lh.block` is not modelled, and operations within budget never get there.
- Log.Log.EndOp: the last operation of a group that does not fit the log, and leaves a buffer to commit it, is excluded; `LogOverrun` shows what its commit does to the disk, and that operations within budget do not get there on mkfs's disk.
- Log.Log.Commit: other processes do not take or return buffers during the call, which is one call of the model; blocks of the group that another process holds are excluded at the start, since waiting for a sleep lock is not modelled; that nobody else uses the log's own blocks is true of all callers of bread.
- Vm.Machine.Allocuvm: the pages to be added must be unmapped, or mappages panics.
- Vm.Machine.Deallocuvm: is stated for sizes up to KERNBASE, as its callers use it.
- Vm.Machine.Mappages: user pages are mapped one at a time, as all its callers do.
- Malloc.Allocator.Malloc: after a request that outgrows the memory there is, the model carries on; the process would fault when it touches the block. Addresses count units of one Header, so a break that is not a multiple of eight is not modelled.
- Bio.Bcache.Bread: is stated at a moment when nobody holds the block; waiting for a sleep lock is not modelled.
- Shell.Parser.Parseexec: the argument vector and the redirections around it are values that are joined at the end, so the sharing of the execcmd object between them is not captured.
- Grep.Match: the matcher's text is a value; the C pointer into it is an index.
