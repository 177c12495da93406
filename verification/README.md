# A Dafny model of xv6

xv6 is a small multiprocessor Unix kernel with a few user programs. This project models the parts
of it whose correctness is not plain from reading one function, and proves what they promise:

- **Crash recovery.** `log.c` over `bio.c` and `memide.c`: a crash may fall between any two block
  writes, of commit or of recovery, and whole operations survive or vanish.
- **The file system.** `fs.c`, `sysfile.c` and `mkfs.c`: block ownership and the bitmap, files as
  flat byte arrays, path lookup with its reference counts, link counts and the directory tree; and,
  joining the two, which file systems a crash leaves.
- **Processes.** `proc.c`, `spinlock.c`, `sysproc.c`: sleep and wakeup step by step for any number
  of processes, and the process table.
- **Memory.** `umalloc.c`, `kalloc.c`, `vm.c`: the K&R heap, the page free list, and two-level page
  tables in the format of section 4.3 (32-bit paging) of the Intel SDM, volume 3A.
- **Streams and languages.** `pipe.c`, `grep.c`, `sh.c`.

Code that updates things in place is a class whose methods are proved against functions and
predicates on values; the lemmas about those values carry the results. Concurrent protocols are
step machines (`GroupCommit`, `SleepWakeup`), or classes whose methods are the stretches of code
run under one lock (`Pipe`, `ProcTable`), so that what every method keeps holds in every
interleaving. A panic is a result value, never a precondition.

Modules, bottom up: `Counting`, `Sums`, `DiskWrites`, `Blocks`, `RedoLog`, `GroupCommit`, `LogSpace`,
`BufferRing`, `BufferCache`, `CacheRoom`, `LogManager` (log and cache); `FsConsts`, `Bitmap`,
`FsState`, `FsSteps`, `FileSys`, `Mkfs`, `Directory`, `Mount`, `FsCrash` (blocks and files); `Paths`, `Dirs`, `Names`,
`NameRuns` (names and links); `SleepWakeup`, `ProcTable` (processes); `FreeList`, `Umalloc`,
`PageTables`, `AddressSpaces`, `Vm`, `VmRuns` (memory); `Pipe`, `Regexp`, `ShellGrammar`,
`ShellLines`, `ShellRoundTrip`, `Shell`. `dafny verify dfyconfig.toml` checks all of them.

## Where the code falls short of a promise

Each of these is proved with its exact condition.

- `begin_op` reserves log space for LOGSIZE blocks, but the second guard of `log_write` compares
  with `log.size - 1`, and mkfs makes the log LOGSIZE blocks long. Every logged block pins a buffer,
  so the number of buffers counts too (`CacheRoom.HolderBeside`). No append within the budget panics
  if and only if the log has at least LOGSIZE + 1 blocks, or more blocks than there are buffers
  (`LogSpace.ReservationSuffices`). In a log with room for a block and a cache that can hold as many
  blocks as the log takes, and only there, a run within the budget fills the log, and then a write
  that would be absorbed panics (`LogSpace.AbsorbingWritePanics`).
- `log_write` makes its tests before it takes the lock. Two processes can both pass at one block
  below the limit, and both append: within the budget the log is never overrun if and only if it has
  at least LOGSIZE + 1 blocks, or only a header, or more blocks than there are buffers
  (`LogSpace.CrashSafetyNeeds`). What an overrun does depends on the cache, because commit needs a
  buffer beside those of the logged blocks. With more than log.size buffers commit writes past the
  log, over a home block, and recovery after a crash leaves there what no published operation wrote
  (`LogSpace.OverrunCorrupts`); with log.size buffers commit panics before its first write
  (`LogSpace.OverrunStops`, `LogManager.Log.WriteLog`, `CacheRoom.NoRoom`). So crash safety in every run
  holds if and only if the log is that long or log.size >= NBUF. The shipped constants, all 30, are
  the second case: the kernel can panic there, but loses nothing (`LogSpace.ShippedConstants`).
- With nobody holding a buffer, commit completes if and only if the logged blocks are fewer than the
  buffers (`LogManager.Log.Commit`).
- `malloc` rounds in 32 bits: the block covers the request if and only if nbytes <= 0xFFFFFFF8
  (`Umalloc.RoundingFits`), and sbrk is asked for the right number of bytes if and only if that
  number is below 2^31 (`Umalloc.SbrkAsked`).
- `allocuvm` ignores the result of mappages. It maps everything if and only if there are pages
  enough, tables included; one page short, with the last page the first to need its table, it
  reports success and leaves the last page unmapped. It loses a page, then or on its way out, if and
  only if the free pages run out exactly between a page and the table it needs
  (`Vm.Memory.AllocUvm`, run: `VmRuns.LosesPage`). copyuvm loses one in the same way, if and only if
  |free| = 66 + 1025 q with 1024 q below the number of pages to copy (`AddressSpaces.CopyLoses`), and
  setupkvm keeps the directory it gave up on (`Vm.Memory.CopyUvm`).
- `deallocuvm` jumps 1024 pages from a page whose table is missing. It misses no page that has a
  table if and only if it starts at a table's first page, in a table that is there, or behind the
  last table (`AddressSpaces.VisitsAll`); what it leaves mapped is exactly the pages it jumped over
  (`AddressSpaces.ShrinkExact`). After enough short successes of allocuvm a process has a size that
  spans a missing table, and a shrink into it strands pages above the size (run:
  `VmRuns.StrandsPages`); growing again panics (`VmRuns.StrandedPanics`).
- mkfs rounds the root directory's size up to the next block, so the root has an unmapped block
  below its size if and only if its entries fill whole blocks (`Mkfs.Image.Build`).
- `writei` may skip iupdate after bmap changed the addresses: the disk inode equals the one in
  memory on return if and only if the file grew or every address field that leads to the bytes
  written was already filled, as it is in a file without holes (`FileSys.FileSystem.Writei`). `readi`
  goes through bmap too and never calls iupdate: the disk inode keeps up if and only if every address
  that leads to the bytes read was filled (`FileSys.FileSystem.Readi`). Otherwise, once the inode is
  dropped from memory and read back, a block in use belongs to nobody (`FileSys.FileSystem.Reload`).
  On an image of mkfs whose root has such a block, a failed lookup in the root is enough (run:
  `Mount.LookupLosesBlock`; with thirty empty files: `Mount.ThirtyFiles`). After a crash it needs no
  dropped inode: the disk that recovery leaves is consistent under exactly the same conditions
  (`FsCrash.WriteThenCrash`, `FsCrash.ReadThenCrash`).
- `create` and `link` do not check that the parent directory is still linked. Link counts and the
  tree are kept if and only if it is (`Names.NewExactly`, `Names.LinkExactly`; run into an unlinked
  working directory: `NameRuns.CreatesInUnlinked`).
- mkfs does not check that the names it cuts to DIRSIZ differ. A file is found under its name if and only
  if no earlier entry has that name after the cut (`Directory.FindsFile`).
- A writer killed on a full pipe leaves sleeping readers asleep. A write misses a wakeup if and only
  if the writer is killed, readers are asleep, and it has more than PIPESIZE bytes to write
  (`Pipe.Pipe.Write`, run: `Pipe.KilledWriterStrandsReader`).

## Model

| member | source | states |
|---|---|---|
| `RedoLog.HeadRoundTrip` | xv6-public/log.c:85-112 | the header read back is the header written, whatever the block held before |
| `RedoLog.RecoveredShape` | xv6-public/log.c:69-121 | recovery copies exactly the log blocks the header names to their home blocks, changes no other home block, and empties the log |
| `RedoLog.CommitCrashAtomic` | xv6-public/log.c:175-199 | cut commit's writes anywhere: recovery yields the old home blocks if the first header write is missing, else the whole transaction, and every other home block is unchanged |
| `RedoLog.RecoveryRestarts` | xv6-public/log.c:115-121 | after any prefix of recovery's writes, recovery still ends on exactly the same disk |
| `RedoLog.InterruptedRecovery` | xv6-public/log.c:115-121 | so it does after any number of interrupted recoveries |
| `RedoLog.CrashAtomicity` | xv6-public/log.c:67-121 | a crash after any k writes of commit, then any number of crashes in recovery, then one complete recovery: all old or all new, all new iff the first write_head reached the disk, log empty |
| `GroupCommit.StepKeeps` | xv6-public/log.c:123-230 | every enabled step of begin_op, log_write (its unlocked test and its locked rest are two steps), end_op, commit, recovery or a crash keeps the log's invariant, unless it overruns the log and commit could still run |
| `GroupCommit.CrashSafe` | xv6-public/log.c:115-199 | in every state of the invariant, a crash recovers exactly the published writes |
| `GroupCommit.CrashRecoversWholeOperations` | xv6-public/log.c:123-230 | in every state of every interleaving without such an overrun, with any further crashes in recovery, what is recovered is a prefix of the logged writes made of whole operations that had called end_op |
| `GroupCommit.BooksStep` | xv6-public/log.c:123-230 | the bookkeeping of struct log, and at most one logged block per buffer, is kept by every step of the machine, whatever the log's size; the machine has no write past lh.block |
| `LogSpace.ArrayHolds` | xv6-public/log.c:219-228 | and needs none: with at most LOGSIZE buffers, or within the budget, the locked part of log_write never meets a full lh.block |
| `GroupCommit.CommitStep` | xv6-public/log.c:69-199 | reading each block from the cache when its turn comes, commit makes exactly the writes of `RedoLog.CommitWrites` |
| `GroupCommit.PublishedStays` | xv6-public/log.c:190-199 | a write once published is never taken back, whatever crashes follow |
| `GroupCommit.NoOperationMeetsCommit` | xv6-public/log.c:145-171 | the panics of end_op and log_write about commits and transactions are unreachable |
| `GroupCommit.CommitRunsAlone` | xv6-public/log.c:123-171 | committing implies outstanding = 0, an idle log is empty, logged block numbers are distinct, nothing is appended during a commit |
| `GroupCommit.WritesAreCalls` | xv6-public/log.c:211-230 | in every run the logged writes, of which recovery restores a prefix, are the log_write calls made, in their order, absorbed or not; a crash takes back those not published |
| `GroupCommit.OpsAreCurrent` | xv6-public/log.c:123-171 | the open operations are those begun and not ended, numbered by the order of begin_op |
| `GroupCommit.LogWriteBooked` | xv6-public/log.c:211-230 | each log_write shows its data to every reader and is booked as a write of its caller's operation, also when the block was in the log already |
| `GroupCommit.ReadersSeeLatest` | xv6-public/log.c:201-230 | while the machine is up, a reader of a home block gets the data of the last log_write of it |
| `GroupCommit.CommitKeepsLatest` | xv6-public/log.c:178-199 | once a commit is complete, a crash leaves in every home block the data last logged for it |
| `GroupCommit.Progress` | xv6-public/log.c:115-199 | an idle log admits any process, an operation can end, commit and recovery always have exactly one next step |
| `LogSpace.SpaceAlways` | xv6-public/log.c:125-140 | if every operation appends at most MAXOPBLOCKS new blocks, lh.n plus the unspent budgets never exceeds LOGSIZE, in every run |
| `LogSpace.AppendFindsSlot` | xv6-public/log.c:211-230 | under the same promise every append finds lh.n < LOGSIZE; only the guard on log.size can still stop it |
| `LogSpace.ReservationSuffices` | xv6-public/log.c:211-230 | in every run no append within budget panics if and only if the log has LOGSIZE + 1 blocks or more blocks than there are buffers; then the log is never overrun and every crash is safe |
| `LogSpace.AbsorbingWritePanics` | xv6-public/log.c:215-226 | a run within the budget reaches a state in which rewriting a logged block panics although it needs no slot, if and only if log.size >= 2 and there are log.size - 1 or LOGSIZE buffers |
| `LogSpace.CrashSafetyNeeds` | xv6-public/log.c:123-230 | within the budget: the log is never overrun iff log.size > LOGSIZE or = 1 or > the number of buffers; crash safety holds in every run iff log.size > LOGSIZE or = 1 or >= the number of buffers |
| `LogSpace.OverrunCorrupts` | xv6-public/log.c:174-199 | a run within the budget in which two racing log_writes overrun a log of up to LOGSIZE blocks and commit overwrites the block behind it |
| `LogSpace.OverrunStops` | xv6-public/log.c:174-199 | with exactly log.size buffers the same race ends in a commit that can make no write |
| `LogSpace.ShippedConstants` | xv6-public/param.h:10-12 | with the constants of param.h and mkfs every run within the budget is crash safe, and one of them reaches that panic |
| `CacheRoom.RoomCount` | xv6-public/bio.c:83-95 | with the dirty buffers those of the logged blocks, an idle one remains if and only if there are more buffers than logged blocks |
| `CacheRoom.HolderBeside` | xv6-public/log.c:211-228 | whoever holds a buffer of a block that is not logged holds one more than the logged blocks pin |
| `CacheRoom.NoRoom` | xv6-public/bio.c:83-95 | otherwise no buffer can be had for a log block |
| `CacheRoom.SecondRead` | xv6-public/log.c:74-75 | the second of the two reads of write_log or install_trans finds a buffer beside the first |
| `CacheRoom.TightLogged` | xv6-public/log.c:219-228 | log_write keeps the dirty buffers exactly those of the logged blocks |
| `CacheRoom.TightFetched` | xv6-public/bio.c:100-109 | so does every bread |
| `CacheRoom.TightReleased` | xv6-public/bio.c:124-142 | and every brelse |
| `LogManager.Log.WriteLog` | xv6-public/log.c:175-187 | sends the disk exactly the cached blocks, in order, to the log; with room in the cache it completes; if no buffer can be had for the first log block it makes no write, however many blocks are logged |
| `LogManager.Log.InstallTrans` | xv6-public/log.c:69-81 | sends exactly the log blocks, in order, home; with room in the cache it completes, and leaves none of the logged blocks dirty |
| `LogManager.Log.WriteHead` | xv6-public/log.c:101-112 | one write: the header block encoding count and names |
| `LogManager.Log.ReadHead` | xv6-public/log.c:85-95 | the in-memory header becomes the one decoded from disk |
| `LogManager.Log.Commit` | xv6-public/log.c:190-199 | the block writes made through the cache are those of `RedoLog.CommitWrites`, or a prefix of them; when nobody holds a buffer it completes if and only if the logged blocks are fewer than the buffers, and then no buffer is dirty |
| `LogManager.Log.RecoverFromLog` | xv6-public/log.c:115-121 | the writes made are those of `RedoLog.RecoverWrites`; when it completes the disk is the recovered one, and in a clean cache of two buffers it does |
| `LogManager.Log.Record` | xv6-public/log.c:220-229 | the locked part of log_write: the block is logged once, its buffer pinned, and its data becomes what readers see; the dirty buffers remain exactly those of the logged blocks |
| `BufferCache.Cache.constructor` | xv6-public/bio.c:40-57 | an empty cache over a disk, all buffers on one ring, the last of the array first; nothing released yet |
| `BufferCache.Cache.Binit` | xv6-public/bio.c:40-57 | the linking loop builds a doubly linked ring of exactly the buffers, in reverse order |
| `BufferCache.Cache.FindCached` | xv6-public/bio.c:69-81 | finds the buffer of a block, or shows that none caches it |
| `BufferCache.Cache.FindIdle` | xv6-public/bio.c:83-95 | finds, of the buffers neither held nor dirty, one whose last release is longest ago, or shows there is none |
| `BufferCache.Cache.Bget` | xv6-public/bio.c:63-96 | a cached block's buffer unless held; else recycles the clean idle one whose last release is longest ago; keeps ring, uniqueness and coherence; sleeps or panics exactly when it must |
| `BufferCache.Cache.Iderw` | xv6-public/memide.c:38-59 | one block read or written and the flags set, or one of the panics, exactly by its guards |
| `BufferCache.Cache.Bread` | xv6-public/bio.c:100-109 | returns the last bytes logged or written for the block, in the one buffer that has it or else an idle one; fails only if that buffer is held, or none is idle; leaves all other buffers alone |
| `BufferCache.Cache.Bwrite` | xv6-public/bio.c:113-119 | exactly one disk write of the held buffer |
| `BufferCache.Cache.Brelse` | xv6-public/bio.c:124-142 | the buffer goes to the front of the ring, the others keep their order, and no buffer changes but for this one's busy flag; the ring is sorted by last release over any history; the cache stays coherent, given that changes were logged or written; panics exactly on a buffer not held |
| `BufferRing.UnlinkKeeps` | xv6-public/bio.c:131-132 | two pointer stores take a buffer out of the ring and leave a ring of the others |
| `BufferRing.PushKeeps` | xv6-public/bio.c:133-136 | four pointer stores put it right behind the head |
| `BufferRing.FrontOrder` | xv6-public/bio.c:131-136 | unlinking a buffer and putting it in front leaves the order of all others |
| `BufferRing.FrontRecent` | xv6-public/bio.c:33-36 | if the ring is sorted by how recently each buffer was released, it still is after one more release |
| `BufferCache.OldestStalest` | xv6-public/bio.c:83-95 | so the first idle buffer from the back is one released longest ago |
| `BufferCache.RecycleKeeps` | xv6-public/bio.c:83-94 | recycling a clean buffer keeps at most one buffer per block and loses no unwritten block |
| `Bitmap.SetBitOnly` | xv6-public/fs.c:63-91 | setting or clearing a bit in a bitmap block changes that bit only |
| `Bitmap.BitIs` | xv6-public/fs.c:63-69 | the bit of block b is bit b % 8 of byte b / 8 of its bitmap block |
| `FsState.TakeKeeps` | xv6-public/fs.c:54-75 | a block whose bit is clear is owned by nobody and is no metadata, so taking and zeroing it changes no reference and no byte of any file |
| `FsState.LinkKeeps` | xv6-public/fs.c:357-384 | storing a new block in an empty position keeps: bitmap = metadata + blocks referenced, each exactly once |
| `FsState.DataWriteKeeps` | xv6-public/fs.c:480-484 | writing a data block changes the bytes of that block of that file only |
| `FsState.FreeKeeps` | xv6-public/fs.c:79-93 | an owned block's bit is set, so freeing it does not panic, and frees that block only |
| `FsState.ByteFormat` | xv6-public/fs.c:357-384 | where a byte of a file is: in a direct block, or in the one that a little-endian word of the indirect block names |
| `FsSteps.LinkAddrKeeps` | xv6-public/fs.c:362-373 | balloc into a direct address or the indirect address: ownership kept, no byte of any file changed |
| `FsSteps.LinkEntryKeeps` | xv6-public/fs.c:374-381 | balloc into an entry of the indirect block: the same |
| `FsSteps.WriteChunk` | xv6-public/fs.c:479-485 | one round of writei puts exactly the next bytes of src in place |
| `FsSteps.ReadChunk` | xv6-public/fs.c:451-456 | one round of readi copies exactly the next bytes of the flat file |
| `FsSteps.DropIndirect` | xv6-public/fs.c:404-414 | freeing the indirect block and clearing its address forgets all its dangling entries at once |
| `FileSys.FileSystem.Balloc` | xv6-public/fs.c:54-75 | returns the lowest free block, never metadata, marked and zeroed; panics only when every block is in use |
| `FileSys.FileSystem.Bfree` | xv6-public/fs.c:79-93 | clears the bit, or panics, exactly when it was clear |
| `FileSys.FileSystem.Bmap` | xv6-public/fs.c:357-384 | returns the block's address, allocating what is missing; no file changes a byte; nothing changes if it was mapped; panics exactly out of range |
| `FileSys.FileSystem.Readi` | xv6-public/fs.c:435-458 | returns the slice of the flat file; fails exactly on off > size or 32-bit overflow; no file changes a byte; allocates nothing if all blocks below size are mapped; the disk inode equals the one in memory exactly when stated above, and is otherwise behind it; keeps the file system settled |
| `FileSys.FileSystem.Writei` | xv6-public/fs.c:463-492 | the flat file patched at off, size max(size, off+n), other files untouched, mapping kept; the disk inode equals the one in memory exactly when stated above, and is otherwise behind it; keeps the file system settled |
| `FileSys.FileSystem.Itrunc` | xv6-public/fs.c:392-419 | frees exactly the blocks of this file, never panics, leaves the inode empty on disk and in memory and the other files untouched; keeps the file system settled |
| `FileSys.FileSystem.Reload` | xv6-public/fs.c:283-300 | ilock reads an inode back: in a settled file system (no holes, disk inodes = inodes in memory) nothing changes; an inode that was behind leaves a used block without any owner |
| `FsSteps.BehindLoses` | xv6-public/fs.c:200-215 | an inode from before an address was filled in fits no ownership of the blocks in use |
| `FileSys.FileSystem.constructor` | xv6-public/fs.c:163-169 | an image whose blocks are accounted for is a valid file system |
| `Mkfs.BitmapOfBit` | xv6-public/mkfs.c:238-251 | the bitmap block mkfs writes has exactly its first `used` bits set |
| `Mkfs.Image.constructor` | xv6-public/mkfs.c:108-111 | an all-zero image satisfies the invariant of the build |
| `Mkfs.Image.Ialloc` | xv6-public/mkfs.c:224-235 | the next inode, empty with one link; no file changes |
| `Mkfs.Image.Iappend` | xv6-public/mkfs.c:256-297 | the file is extended by exactly the bytes given and has exactly the blocks its size needs; succeeds if and only if the file stays within MAXFILE blocks and the blocks it takes, counted, are left |
| `Mkfs.Image.UsedBits` | xv6-public/mkfs.c:238-251 | the loop computes the bitmap block |
| `Mkfs.Image.AddFile` | xv6-public/mkfs.c:130-156 | the file's contents and its entry at the end of the root, other files untouched; succeeds if and only if the name is accepted and the blocks needed, counted, are left |
| `Mkfs.Image.Build` | xv6-public/mkfs.c:68-168 | succeeds if and only if every file is accepted and root and files fit on the disk; the image then: bitmap = metadata + referenced blocks, each file has its bytes and blocks, the root has an entry for each file and zeros behind the last, and its blocks are all mapped iff its entries do not fill whole blocks |
| `Directory.SameStrings` | xv6-public/fs.c:496-500 | namecmp finds a name equal to a directory entry's field if and only if the name cut to DIRSIZ is the string in the field |
| `Directory.DirentRead` | xv6-public/mkfs.c:147-150 | the sixteen bytes of an entry give back the inode number and the name cut to DIRSIZ |
| `Directory.RootEntries` | xv6-public/mkfs.c:117-164 | the root of the image, decoded from its bytes: both dots, then for each file its inode under the host's name without one leading underscore, cut to DIRSIZ, then free entries |
| `Directory.DirLookup` | xv6-public/fs.c:506-529 | on a directory's bytes, through readi: the first entry in use whose name matches, with its inode and offset, or none; no panic on a directory of whole entries without holes up to the entry found |
| `Directory.FindsFile` | xv6-public/fs.c:506-529 | in the root of an image, a name that is file t's after the cut is found at entry 2 + t if and only if no earlier entry has it |
| `Directory.FindsNoOther` | xv6-public/fs.c:506-529 | and any other name but the dots is not found |
| `Mount.Boot` | xv6-public/mkfs.c:68-168 | there is a file system to boot from if and only if mkfs can build it, and it is settled if and only if the root entries do not fill whole blocks |
| `Mount.BootFinds` | xv6-public/mkfs.c:117-156 | boot, look a host file up in the root and read it: inode 2 + t, and exactly the host file's bytes, if and only if no earlier entry has its name |
| `Mount.LookupLosesBlock` | xv6-public/fs.c:506-529 | for all files whose entries fill whole blocks, with a block to spare: the sixteen-byte read that dirlookup makes of the root's hole succeeds, and once the inode is dropped and read back a block in use has no owner |
| `Mount.ThirtyFiles` | xv6-public/fs.c:506-529 | thirty empty files are such a case |
| `FsCrash.NodeRoundTrip` | xv6-public/fs.c:200-215 | the inode iupdate stores in its block is the one ilock reads back, and the other inodes of the block stay |
| `FsCrash.NodeFormat` | xv6-public/fs.h:27-34 | where the fields of struct dinode lie in the block, byte by byte |
| `FsCrash.StoreInodes` | xv6-public/fs.c:200-215 | on the disk, iupdate's one block write changes that inode only |
| `FsCrash.HomeConsistent` | xv6-public/fs.h:14-41 | whether a disk's own inodes account for its blocks does not depend on what is in the log |
| `FsCrash.RecoveredConsistent` | xv6-public/log.c:115-199 | if the first disk is consistent and every group of operations between two quiet moments takes a consistent file system to a consistent one, then in every state of every run, after a crash there and any crashes during recovery, the recovered disk is consistent and can be mounted |
| `FsCrash.PublishedDecides` | xv6-public/log.c:190-199 | the condition is exact: once published, a view is consistent if and only if the disk recovered after a crash is |
| `FsCrash.ShowsConsistent` | xv6-public/fs.c:163-169 | a view is consistent if and only if the disk inodes of the file system it shows own its blocks |
| `FsCrash.MkfsConsistent` | xv6-public/mkfs.c:93-103 | the image of mkfs is a consistent disk, laid out as the theorem asks |
| `FsCrash.WriteThenCrash` | xv6-public/fs.c:463-492 | after writei every view that shows the result is consistent if and only if the file grew or every address was there |
| `FsCrash.ReadThenCrash` | xv6-public/fs.c:435-458 | after readi, if and only if every address was there |
| `FsCrash.TruncThenCrash` | xv6-public/fs.c:392-419 | after itrunc, always |
| `Paths.WordFirst` | xv6-public/fs.c:577-599 | a non-empty element up to a slash or the end is the first component, its first DIRSIZ characters if it is longer |
| `Paths.Skipelem` | xv6-public/fs.c:577-599 | yields the first non-empty part of the path cut to DIRSIZ and the rest; none iff there is none; the rest is empty iff it was the last |
| `Paths.PathJoin` | xv6-public/fs.c:577-599 | a path below a path has the elements of both, in order |
| `Names.Namespace.Iget` | xv6-public/fs.c:221-251 | one slot per inode, one pointer more; panics exactly when the inode is not cached and the cache is full |
| `Names.Namespace.Ilock` | xv6-public/fs.c:267-295 | reads the inode in; panics exactly on a free inode |
| `Names.Namespace.Iput` | xv6-public/fs.c:318-336 | one pointer less; frees the inode, leaving type, links and contents zero, exactly when it was the last, it was read in, and it has no links; links and tree are kept, and the whole invariant if and only if a pointer is left, the inode was read in, has a link or is free |
| `Names.Namespace.FindEntry` | xv6-public/fs.c:506-529 | the first entry with that name |
| `Names.TargetStep` | xv6-public/fs.c:617-633 | one round of namex follows one step of the fold of lookups |
| `Names.WalkJoin` | xv6-public/fs.c:606-638 | a walk along two stretches of a path is one walk after the other |
| `Names.WalkOne` | xv6-public/fs.c:617-633 | a walk along one element is what the name stands for in that directory |
| `Names.Namespace.NameX` | xv6-public/fs.c:606-638 | namei is the fold of lookup over the components, nameiparent over all but the last with a directory at the end; net pointer change is +1 on the inode returned and 0 elsewhere; panics only on a free inode or a full cache; frees nothing |
| `Names.WalkLive` | xv6-public/fs.c:606-638 | from a linked directory every directory a path leads to is linked |
| `Names.Namespace.DirLink` | xv6-public/fs.c:533-559 | the entry goes to the first empty slot unless the name is taken; for a new name it panics if and only if the directory has the largest size and no empty slot, or balloc has fewer blocks left than the entry takes; no pointer count changes |
| `Names.Namespace.IsDirEmpty` | xv6-public/sysfile.c:166-178 | no entry in use behind the first two |
| `Names.Namespace.Ialloc` | xv6-public/fs.c:177-196 | the first free inode |
| `Names.Namespace.Link` | xv6-public/sysfile.c:116-162 | on success exactly one new name and one more link; on failure nothing changed, and the old path is missing or a directory, or the new one has no parent or is taken; a panic names its cause: a full inode cache, an inode without a type, a full directory or no block left; counts and tree kept if and only if the directory is linked; pointers others hold stay |
| `Names.Namespace.Unlink` | xv6-public/sysfile.c:182-236 | removes exactly the entry named, frees the inode iff no link and no pointer is left, keeps counts and tree; the panic "nlink < 1" is unreachable; fails exactly on a missing name, a dot or a non-empty directory |
| `Names.Namespace.Create` | xv6-public/sysfile.c:239-281 | makes the first free inode under the name, or opens an existing file, or fails because the parent is missing or the name taken by something else; a panic means a full inode cache, an inode without a type, no free inode, a full directory or too few blocks left, one more for a new directory; counts and tree kept if and only if the directory is linked; pointers others hold stay |
| `Names.NewKeeps` | xv6-public/sysfile.c:239-281 | create in a linked directory keeps nlink = entries naming the inode, and the tree |
| `Names.NewBreaks` | xv6-public/sysfile.c:245-281 | create in an unlinked directory never does, wherever one claims the new directory hangs |
| `Names.LinkKeeps` | xv6-public/sysfile.c:116-162 | link into a linked directory keeps both |
| `Names.LinkBreaks` | xv6-public/sysfile.c:116-162 | link into an unlinked directory breaks the count |
| `Names.NewExactly` | xv6-public/sysfile.c:239-281 | what create makes fits the invariant if and only if the directory is linked |
| `Names.LinkExactly` | xv6-public/sysfile.c:116-162 | so does a new name made by link |
| `Names.LinkMeans` | xv6-public/sysfile.c:116-162 | after link the new name stands for the file, which has one link more; no other name of the directory and no other inode changed |
| `Names.NewMeans` | xv6-public/sysfile.c:245-281 | after create the name stands for a new inode of the type asked, with one link; a new directory holds exactly the dots and adds a link to its parent; no other name and no other inode changed |
| `Names.RemovedMeans` | xv6-public/sysfile.c:203-231 | after unlink the name stands for nothing unless a second entry has it, the inode has one link less or is free, the parent loses a link to a directory; no other name and no other inode changed |
| `NameRuns.CreatesInUnlinked` | xv6-public/sysfile.c:239-281 | mkdir, stay in the directory, unlink it, create a file in it: the invariant is gone |
| `Names.FullCrowded` | xv6-public/fs.c:226-252 | a full inode cache means NINODE inodes with pointers; every panic for lack of a slot is traced to that |
| `Names.RemovedKeeps` | xv6-public/sysfile.c:182-236 | unlink keeps both, and every inode in use keeps a link or a pointer |
| `Names.Namespace.constructor` | xv6-public/mkfs.c:117-128 | an empty root directory with one link satisfies the invariant |
| `Dirs.AddDirTree` | xv6-public/sysfile.c:264-275 | a new directory hangs below its parent and the tree stays a tree |
| `Dirs.AddDirCounts` | xv6-public/sysfile.c:264-275 | its dots and its name are exactly what the raised counts account for |
| `Dirs.BareOneLink` | xv6-public/sysfile.c:204-222 | an empty directory has exactly one link: its parent's entry |
| `Dirs.DropDirTree` | xv6-public/sysfile.c:204-227 | removing an empty directory leaves a tree |
| `Dirs.TreeReachesRoot` | xv6-public/sysfile.c:239-281 | following ".." from a linked directory leads to ROOTINO |
| `Dirs.OneParent` | xv6-public/sysfile.c:239-281 | a directory is named by one entry of one linked directory |
| `Dirs.DeadParentBreaks` | xv6-public/sysfile.c:116-162 | a new name in an unlinked directory breaks the count |
| `SleepWakeup.StepKeeps` | xv6-public/proc.c:351-406 | every lock step of any process keeps the protocol's invariant |
| `SleepWakeup.NoLostWakeup` | xv6-public/proc.c:352-406 | in every run, a process asleep although its condition is true has a waker that has not finished, also when lk is ptable.lock |
| `SleepWakeup.WakeupReachesAll` | xv6-public/proc.c:390-406 | when a waker finishes, nobody is asleep or about to be on its channel |
| `SleepWakeup.SleepReturnsHolding` | xv6-public/proc.c:351-384 | in every run, a process that is done with a call of sleep holds lk again and is back in its critical section, whether lk is ptable.lock or not |
| `SleepWakeup.SleepsUntilWoken` | xv6-public/proc.c:369-384 | and it was SLEEPING when somebody's wakeup of its channel or a kill woke it |
| `SleepWakeup.WakeupReturns` | xv6-public/proc.c:390-429 | wakeup returns to a caller that holds the lock it held; kill makes a sleeper runnable at once |
| `SleepWakeup.ReadyTold` | xv6-public/proc.c:351-406 | the condition of a channel is what its last change under the lock made it |
| `SleepWakeup.NoDeadlock` | xv6-public/proc.c:359-406 | in every state of every run, as long as a process is in the middle of a critical section, of sleep or of wakeup, some process can take its next step |
| `SleepWakeup.MutualExclusion` | xv6-public/spinlock.c:25-64 | no two processes hold the same lock |
| `ProcTable.PTable.constructor` | xv6-public/proc.c:79-103 | one runnable process with pid 1 in slot 0, the other slots unused; satisfies the invariant |
| `ProcTable.PTable.AllocProc` | xv6-public/proc.c:35-74 | takes the first unused slot with a fresh pid, or there is none; pids of slots in use stay distinct |
| `ProcTable.PTable.AbortAlloc` | xv6-public/proc.c:53-56 | the slot goes back |
| `ProcTable.PTable.ForkParent` | xv6-public/proc.c:146 | the child's parent pointer names a live process |
| `ProcTable.PTable.ForkFinish` | xv6-public/proc.c:161-164 | the child becomes runnable |
| `ProcTable.PTable.Wakeup1` | xv6-public/proc.c:390-397 | exactly the sleepers on the channel become runnable |
| `ProcTable.PTable.Suspend` | xv6-public/proc.c:320-384 | yield, or sleep on something other than one's children |
| `ProcTable.PTable.Schedule` | xv6-public/proc.c:266-296 | a runnable process runs |
| `ProcTable.PTable.Kill` | xv6-public/proc.c:412-429 | the first slot with the pid is marked killed, and runnable if it was sleeping; nothing else changes; fails iff there is none |
| `ProcTable.PTable.Exit` | xv6-public/proc.c:173-212 | the process becomes a zombie; of the others, exactly its children change parent, to init, and exactly those asleep in the wait of its parent, or in that of init if a zombie was passed on, become runnable; nobody waits beside a zombie; init cannot exit |
| `ProcTable.PTable.PassChildren` | xv6-public/proc.c:199-206 | the loop over the table, interleaved with the wakeups of init |
| `ProcTable.PTable.Wait` | xv6-public/proc.c:217-255 | collects the first zombie child and empties its slot, each pid at most once; fails iff there is no child, or no zombie child and the caller was killed; sleeps only with children, no zombie among them, and not killed |
| `ProcTable.PTable.GetPCount` | xv6-public/sysproc.c:17-35 | the count is the number of slots in use, which is slots taken minus slots given back |
| `ProcTable.ExitKeeps` | xv6-public/proc.c:173-212 | exit keeps: distinct pids, parents that are neither free nor zombies, nobody asleep in wait with a zombie child |
| `ProcTable.ReapKeeps` | xv6-public/proc.c:217-255 | so does collecting a child |
| `FreeList.MergeKeeps` | xv6-public/umalloc.c:25-44 | freeing keeps the list in address order with no two blocks touching |
| `FreeList.MergeUnits` | xv6-public/umalloc.c:25-44 | freeing adds exactly the units of the block |
| `Umalloc.PlaceTest` | xv6-public/umalloc.c:30-32 | free's two stopping tests hold at exactly the entry the block belongs behind |
| `Umalloc.OneWrap` | xv6-public/umalloc.c:25-44 | the ring wraps exactly once, at its highest block |
| `Umalloc.Heap.Locate` | xv6-public/umalloc.c:29-32 | the walk from freep ends at that entry |
| `Umalloc.Heap.Free` | xv6-public/umalloc.c:25-44 | the block joins the free list merged with the neighbours it touches; all blocks stay apart and every unit accounted for |
| `Umalloc.Heap.Morecore` | xv6-public/umalloc.c:47-61 | at least 4096 new units from sbrk enter the free list, where a big enough block is then found; without sbrk nothing changes |
| `Umalloc.Heap.Take` | xv6-public/umalloc.c:76-84 | an exact fit leaves the list, a bigger block gives up its tail end; the carved block is new, apart from all others, and exactly as big as asked |
| `Umalloc.Heap.Malloc` | xv6-public/umalloc.c:64-90 | next fit: takes from the first block behind freep that is big enough, and moves freep before it; terminates with at most one morecore and returns a block of exactly the computed units; fails iff nothing fits and sbrk fails; heap invariant and conservation of units kept |
| `Umalloc.RoundingFits` | xv6-public/umalloc.c:69 | the units cover the request iff nbytes <= 0xFFFFFFF8 |
| `Umalloc.SbrkAsked` | xv6-public/umalloc.c:52-54 | sbrk is asked for that many bytes iff they fit a positive int |
| `PageTables.WriteData` | xv6-public/vm.c:239 | a page that is neither directory nor table may be overwritten without changing any translation |
| `PageTables.LinkTable` | xv6-public/vm.c:51-63 | a zeroed new table changes no translation |
| `PageTables.PutPte` | xv6-public/vm.c:83 | storing an entry changes that one translation of that one space |
| `PageTables.TableEntryDecides` | xv6-public/vm.c:59-62 | the directory entries allow everything, so whether a page may be written or reached from user code is what its table entry says |
| `PageTables.DropDir` | xv6-public/vm.c:278-292 | dropping a directory and its pages leaves the other spaces intact |
| `AddressSpaces.NoSharing` | xv6-public/vm.c:221-337 | no page serves two places, and none in use is free or held |
| `AddressSpaces.KernelHalf` | xv6-public/vm.c:117-126 | page by page: physical memory at KERNBASE, writable but for the text and read-only data, devices mapped to themselves, nothing else, and nothing for user code |
| `AddressSpaces.VisitsAll` | xv6-public/vm.c:258-262 | the walk with its jumps misses no page that has a table if and only if it starts at a table boundary, in a present table, or behind the last one |
| `AddressSpaces.VisitsExactly` | xv6-public/vm.c:258-262 | page by page: a page with a table is visited if and only if it does not lie in the first present table at a lower place than the start |
| `AddressSpaces.ShrinkExact` | xv6-public/vm.c:250-273 | after the sweep a page is mapped if and only if it was and was jumped over; none is left if and only if no mapped page is jumped over |
| `AddressSpaces.ShrinkBelow` | xv6-public/vm.c:250-273 | if exactly the pages below the size are mapped, exactly those below the new size are afterwards |
| `AddressSpaces.UnmappedBelow` | xv6-public/vm.c:250-273 | and exactly their difference is freed |
| `AddressSpaces.EndedMeans` | xv6-public/vm.c:231-241 | how allocuvm's loop ends, and whether it loses a page, is decided by the number of free pages and by what is mapped |
| `AddressSpaces.CopyLoss` | xv6-public/vm.c:310-337 | copying k pages loses one if and only if |free| = 66 + 1025 q with 1024 q < k |
| `AddressSpaces.SweepAll` | xv6-public/vm.c:278-292 | swept from page 0 no user page is left, whatever was mapped |
| `Vm.Memory.constructor` | xv6-public/kalloc.c:31-36 | before kinit nothing is free and the invariant holds |
| `Vm.Memory.FreeRange` | xv6-public/kalloc.c:46-52 | exactly the pages of the range join the free list, each once |
| `Vm.Memory.Kfree` | xv6-public/kalloc.c:60-77 | pushes the page on the linked free list, or panics exactly by its test |
| `Vm.Memory.Kalloc` | xv6-public/kalloc.c:83-95 | pops the first free page, or returns 0 iff there is none |
| `Vm.Memory.Walk` | xv6-public/vm.c:46-65 | finds the table or adds a zeroed one; no translation changes; fails exactly without table and without page |
| `Vm.Memory.MapPages` | xv6-public/vm.c:71-90 | exactly the range is mapped, or it ran out of tables, or a page was mapped already |
| `Vm.Memory.SetupKvm` | xv6-public/vm.c:129-144 | succeeds if and only if 65 pages are free, and takes 65; a new directory with an empty user half and exactly kmap's kernel half; other spaces untouched |
| `Vm.Memory.AllocUvm` | xv6-public/vm.c:221-243 | exact outcome by the number of free pages, whatever holes the space has: all new pages zeroed and writable, or the last one missing, or the old mapping restored; exactly when a page is lost; panics exactly on a page that is mapped above the size |
| `Vm.Memory.DeallocUvm` | xv6-public/vm.c:250-273 | unmaps and frees exactly the mapped pages the walk comes to, and says how many; exactly which pages it leaves; never panics, other spaces and all remaining pages untouched |
| `Vm.Memory.CopyUvm` | xv6-public/vm.c:310-337 | the child has the parent's bytes and flags at every page, in pages of its own; on a source without holes it succeeds if and only if `ChildCost` pages are free and loses a page if and only if `CopyLoses`; on failure everything else goes back except a directory that setupkvm gave up on; panics only on a hole |
| `Vm.Memory.FreeVm` | xv6-public/vm.c:278-292 | exactly the pages of this space go back to the free list; all others are untouched |
| `VmRuns.LosesPage` | xv6-public/vm.c:221-243 | 66 free pages, setupkvm, allocuvm of one page: success is reported, nothing is mapped, the page is lost |
| `VmRuns.StrandsPages` | xv6-public/vm.c:221-273 | a run of allocuvm and deallocuvm calls, from a process with one full table, that ends with exactly these pages mapped: the 1024 of table 0 and five of table 2, at a size of 1029 pages |
| `VmRuns.StrandedPanics` | xv6-public/vm.c:221-243 | the run goes on: growing past the first of the stranded pages is the remap panic |
| `Pipe.Pipe.constructor` | xv6-public/pipe.c:22-56 | an empty open pipe |
| `Pipe.Pipe.Counters` | xv6-public/pipe.c:84-105 | the wrapping counters tell full and empty correctly for ever |
| `Pipe.Pipe.Write` | xv6-public/pipe.c:78-97 | appends a prefix of the bytes to the stream, all of them if it returns; first in, first out kept; misses a wakeup if and only if the writer is killed, readers sleep and more than PIPESIZE bytes are to be written |
| `Pipe.Pipe.ReadBytes` | xv6-public/pipe.c:100-120 | delivers the next bytes of the stream, fewer than asked only if none are left; sleeps only on an empty open pipe and not killed; fails only there and killed |
| `Pipe.Pipe.Close` | xv6-public/pipe.c:59-74 | closes an end and wakes the other side; freed iff both are closed |
| `Pipe.Pipe.Kill` | xv6-public/proc.c:411-429 | kill wakes one sleeper of either kind; nobody misses a wakeup by it |
| `Pipe.KilledWriterStrandsReader` | xv6-public/pipe.c:85-88 | a run that ends with a reader asleep next to a full pipe |
| `Regexp.Match` | xv6-public/grep.c:73-82 | true iff some substring, anchored as ^ and a final $ require, is in the language |
| `Regexp.MatchHere` | xv6-public/grep.c:85-96 | true iff some prefix of the text is |
| `Regexp.MatchStar` | xv6-public/grep.c:99-106 | true iff some run of the symbol is followed by a match |
| `Regexp.StarFirst` | xv6-public/grep.c:85-106 | the language of c*re, unfolded |
| `Shell.Parser.GetToken` | xv6-public/sh.c:267-309 | the token at the cursor: its kind, its slice, the cursor behind it |
| `Shell.Parser.Peek` | xv6-public/sh.c:312-321 | whether the next character is one of toks |
| `Shell.Parser.ParseRedirs` | xv6-public/sh.c:376-398 | agrees with the grammar; cursor stays within the line |
| `Shell.Parser.ParseExec` | xv6-public/sh.c:417-447 | agrees with the grammar, words and redirections mixed, of which `ShellRoundTrip.ParsesTyped` says what it reads |
| `Shell.Parser.ParseBlock` | xv6-public/sh.c:401-414 | agrees with the grammar |
| `Shell.Parser.ParsePipe` | xv6-public/sh.c:363-373 | agrees with the grammar |
| `Shell.Parser.ParseLine` | xv6-public/sh.c:346-360 | terminates on every line, agrees with the grammar, cursor never past the end |
| `Shell.LineSound` | xv6-public/sh.c:346-447 | whatever the line, the words of a parsed command are whole words of it and every argv has room for its closing 0 |
| `Shell.NulTerminate` | xv6-public/sh.c:451-494 | a NUL behind exactly the words of the command |
| `Shell.ReadsBack` | xv6-public/sh.c:451-494 | no word's NUL falls inside another word, so each word reads back as its token slice |
| `Shell.ParseLineIn` | xv6-public/sh.c:329-343 | parsecmd on a buffer: parses as the grammar says, or fails with the buffer unchanged; afterwards every word is its own C string |
| `ShellLines.LexLay` | xv6-public/sh.c:267-309 | words and operators laid out in a line with any white space, needed only where two would run together, are read back one by one |
| `ShellLines.LayLex` | xv6-public/sh.c:267-309 | every line is its words and operators laid out so |
| `ShellRoundTrip.ParsesTyped` | xv6-public/sh.c:329-447 | every line as typed, with words and redirections in any order, pipes, lists, & and parentheses, and any white space, parses to the command it stands for: & over the pipe before it, pipes and lists to the right, redirections around the command with the last outermost |
| `ShellRoundTrip.ParsesOnlyTyped` | xv6-public/sh.c:329-447 | and every line the parser accepts is such a line, with that command |
| `ShellRoundTrip.RoundTrip` | xv6-public/sh.c:329-447 | for every command tree with legal words, parsing its fully parenthesised text, however spaced, rebuilds the tree |

## Hypotheses

- Each operation appends at most MAXOPBLOCKS new log blocks (`LogSpace.WithinBudget`); filewrite
  sizes its chunks from LOGSIZE instead.
- Operations that are open at the same time leave a consistent file system (`FsCrash.GroupsKeep`). For an
  operation alone `FsCrash.WriteThenCrash` and its neighbours say when it holds; inode locks keep operations apart.
- `Names.Namespace.DirLink`, `Link` and `Create` are told how many blocks balloc has left, and a directory has
  every block below its size; the hole mkfs may leave in the root is the subject of `Mount`.
- A holder logs or writes every change before brelse (`BufferCache.Cache.Brelse`).
- nextpid does not wrap (`ProcTable.PTable.AllocProc`).
- mkfs gets at most NINODES - 2 files; it does not check (`Mkfs.Image.Build`). Their names are C strings.
- Page counts (`Vm.Memory.SetupKvm`, `AllocUvm`, `CopyUvm`) and the contracts of `Vm` as a whole take each
  call as one step: no other process allocates or frees a page during it.
- Block and inode numbers in `FsState` fit the C types: a disk has fewer than 2^31 - 4096 blocks.

## Left out

- Drivers, boot code, traps, system call argument fetching and context switching: machine interface.
- exec, loaduvm, inituvm, clearpteu, copyout: loading programs and copying arguments is out of scope.
- The buffering loop of grep, runcmd, printf and the small user programs.
- FileSys.FileSystem.Readi: device inodes, which go to the driver.
- FileSys.FileSystem.Writei: device inodes, which go to the driver.
- FileSys.FileSystem.constructor: takes an image whose blocks are accounted for, as mkfs makes it; the kernel mounts any disk.
- The superblock as bytes, and device numbers: `FileSys` has disk inodes as a table beside the data blocks, and `FsCrash` packs them.
- GroupCommit.BooksStep: a write past lh.block is no step of the machine; `LogSpace.ArrayHolds` says when it cannot be due.
- Directory contents as bytes, but for `Directory`: `Names` holds directories as entries.
- filewrite's chunks, file descriptors, and the rest of sysfile.c.
- I_BUSY and interleavings of system calls inside the file system: `FileSys` and `Names` are sequential; the log and the cache below them are not.
- pushcli, popcli and interrupt state: an acquire is one atomic step that waits for a free lock.
- Liveness beyond `GroupCommit.Progress` and `SleepWakeup.NoDeadlock`, fairness and the x86 memory model.
- The meaning of killed: it is a flag that kill sets and wait tests.
- BufferCache.Cache.Bget: returns MustSleep where the source sleeps and tries again; the waiting itself is not modelled.
- Mkfs.Image.Build: host files are given as bytes; errors of the host's open and read are not modelled.
- ShellRoundTrip.RoundTrip: the tree has two kinds of redirection, because the parser treats >> like >.
- Umalloc.Heap.Malloc: other users of sbrk appear only as a gap before the new memory.
