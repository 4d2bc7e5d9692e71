# ZV6 in Dafny

ZV6 is a teaching kernel (xv6) whose file system survives crashes and damaged blocks. Writes go through a redo log;
every inode carries a checksum of its content; an inode may have up to two *dittos*, hidden inodes that repeat its
content, and an inode that no longer verifies is repaired from one of them. This project models that file system from
the disk driver up to `filewrite`, the image builder `mkfs`, directories and paths, and five other parts of the kernel
and its user programs that have invariants of their own: the process table, pipes, page tables, the user-level
allocator and the shell's parser, whose language `Syntax` defines without saying how it is parsed.

What is proved about the file system is proved in layers that meet:

* `LogTheory` is about disk images. It says what a log_write, a commit and a recovery do to the image, sector write by
  sector write, and proves crash atomicity for every transaction, every point of failure and every chain of
  interrupted recoveries (`CrashAtomicity`), and for whole runs of transactions (`RunsAreAtomic`).
* `BufferCache` and `Log` are the C code: the buffer list with its `prev` and `next` links, `bget`, `bread`, `brelse`,
  `log_write`, `commit_trans`, `recover_from_log`. The disk keeps every image it has ever been in, and the methods prove
  that the images written are exactly those `LogTheory` is about.
* `Blocks`, `Dinodes` and `FileSystem` are the block layer: the bitmap, `bmap`, `itrunc`, `readi` and the loop of
  `writei`, with the invariant that every block in use has exactly one owner. `Transactions` keeps the log_writes of
  the open transaction and of the committed ones.
* `Ditto`, `Duplicate` and `FileCalls` are the inode layer: checksums, mirrored writes, verification on locking, repair
  from a replica, `duplicate` and `filewrite`. `Overrun` counts exactly what a write to an inode and its dittos takes
  in the log, and so when it passes `log_write`.
* `FileCrash` puts the two ends together: a crash anywhere in a `filewrite` or a rescue leaves a whole number of its
  chunks on the recovered disk, the same for an inode and its dittos.
* `Mkfs` builds the first image and shows that what the kernel mounts satisfies the invariants above. `Inputs` is one
  such image, on which some of the findings below happen.

The model follows the form of the code. Objects that the C code updates in place are classes (`Disk`, `Cache`, `Log`,
`Fs`, `InodeLayer`, `File`, `Builder`, `Ptable`, `Pipe`, `Memory`, `Allocator`, `Directory`); arrays of fixed size that
hold values are fields of type `seq`; the shell's command buffer is an `array`, because `nulterminate` writes into it.
The loops of the modelled functions are loops. What the methods are proved against, the disk images, file contents,
command trees and runs, is stated with functions and predicates on values. In a few invariants and helper contracts a
predicate is written `P == true`: that says the same, and keeps the verifier from taking it apart.

## What became a parameter

* What `sbrk`, `kalloc` and the scheduler answer, and whether a process has been killed, are parameters or
  nondeterministic choices, and the contracts hold for all of them.
* `sleep` ends a step: a method that would sleep returns `MustSleep`, `MustWait` or `Sleeps`, and the run theorems
  (`Proc.RunKeeps`, `Pipe.RunsSettled`) are about any interleaving of such steps.
* `panic` is a result value where the code can reach it. Where it cannot, that is stated: `Itrunc` never meets
  "freeing free block", `IlockTrans` never reaches its last line, `CommitTrans` never meets "no buffers".
* A run of the file system also ends when no data block is left. `balloc` then either panics or, because the bitmap
  leaves the log area free, hands out a block of the log; both are reported as the end of the run (`Stopped`, `Ended`,
  `None`), with the proof that it was so (`OutOfBlocks`).

## Where the code and its comments disagree

The model follows the code.

* `ilock_trans` is said to return a locked inode or to panic if the file is recoverable (fs.c:356-359). It checks an
  inode only when it loads it, so an inode in memory is not checked again, and `irescue` repairs the first
  `ip->size` bytes of the damaged inode, not of the replica.
* `iduplicate` is said to copy the checksum from the source (fs.c:553-554). Copying into anything but a ditto ends in
  `iupdate_ext`, which computes the checksum again from what has been copied so far (fs.c:252).
* `readi` reads through `bmap`, which allocates: reading a hole writes to the disk (fs.c:686).
* `log_write` tests the size of the log before it looks for the sector there, so a write that would be absorbed can
  still panic (log.c:170-178).
* `mkfs` announces a disk of 1024 sectors (mkfs.c:93) and makes one of 2048.
* `isdirempty` skips the first two entries without looking at them (sysfile.c:177).

## Model

| member | source | states |
|---|---|---|
| LogTheory.HeadRoundTrip | log.c:85-113 | read_head returns exactly the count and sectors write_head stored, whatever else was in the header block |
| LogTheory.LogWritePending | log.c:165-187 | one log_write changes what is pending by exactly that write; a sector already logged keeps its slot and takes the new data |
| LogTheory.LoggedPending | log.c:165-187 | any number of log_writes leave the header and every home sector alone and collect, as pending, the last data for each sector |
| LogTheory.CommitIsRecovery | log.c:116-148 | after its header write, a commit writes the same images as a recovery from that point |
| LogTheory.CommitCrashSafe | log.c:141-155 | every image of a commit, from the header write on, recovers to the whole transaction |
| LogTheory.RecoveryCrashSafe | log.c:115-122 | a crash after any number of recovery's own writes leaves an image that recovers to the same contents |
| LogTheory.RecoveryFinishes | log.c:115-122 | an uninterrupted recovery leaves those contents in the home sectors and an empty log |
| LogTheory.CrashAtomicity | log.c:116-187 | run a transaction on a quiescent disk, stop after any number of sector writes, interrupt recovery any number of times: the home sectors hold the old contents if the header had not been written, else the whole transaction |
| LogTheory.CommitDurable | log.c:141-155 | once commit_trans has returned, the transaction is in the home sectors and the log is empty |
| LogTheory.RunsAreAtomic | log.c:116-187 | after any sequence of completed and crashed transactions, the home sectors are the first ones overlaid with the durable transactions, whole and in order, and nothing else |
| BufferCache.Disk.Iderw | memide.c:36-58 | succeeds exactly for a held buffer with something to do on the disk; writes if dirty and records the image, else reads; leaves everything alone otherwise |
| BufferCache.UnlinkRing | bio.c:127-128 | the two link assignments take one buffer out of the circular list, whatever its place |
| BufferCache.LinkRing | bio.c:129-132 | the four link assignments put a buffer in front of the list |
| BufferCache.Cache.constructor | bio.c:38-56 | every buffer is in the list, free, and names no sector: the cache invariant holds |
| BufferCache.Cache.MoveToFront | bio.c:127-132 | the list stays the buffers in the order of their last release, most recent first |
| BufferCache.Cache.Find | bio.c:69-80 | finds the buffer of a sector if there is one, and only then |
| BufferCache.Cache.Victim | bio.c:82-91 | finds a buffer that is neither held nor dirty such that every buffer whose last release was before its own is held or dirty; none only if all are |
| BufferCache.Cache.Bget | bio.c:61-93 | returns the sector's buffer, or if no buffer has the sector recycles the clean one released longest ago; never two buffers for a sector; sleeps only on a held buffer, panics only if every buffer is held or dirty |
| BufferCache.Cache.Bread | bio.c:96-105 | the buffer holds what callers of the cache last wrote to the sector: the pinned data if it is dirty, else the disk's |
| BufferCache.Cache.Bwrite | bio.c:108-115 | writes the held buffer's data to its sector, and makes one more image of the disk; refuses a buffer that is not held |
| BufferCache.Cache.Brelse | bio.c:119-138 | gives up the buffer, which becomes the most recently released; the cache stays coherent with the disk |
| BufferCache.BehindIsOlder | bio.c:82-91 | being further back in the list is having been released earlier |
| BufferCache.OverlaidAt | bio.c:61-105 | the disk as the cache's callers see it: the one dirty buffer's data where there is one, the disk's elsewhere |
| Log.Log.constructor | log.c:54-66 | a log with no transaction, placed as the superblock says |
| Log.Log.FindSlot | log.c:175-178 | the absorption scan returns the first slot that has the sector, or the end |
| Log.LogWriteAgrees | log.c:165-187 | filling the slot and pinning the buffer keeps log, pins and disk in agreement |
| Log.Log.LogWrite | log.c:165-187 | appends the write, or panics exactly when the log is full or no transaction is open; with fewer log slots than buffers and no other buffer held, it succeeds |
| Log.Log.WriteHead | log.c:98-113 | one sector write, of the header, makes the disk the one with that header |
| Log.Log.InstallTrans | log.c:68-82 | writes the images of an installation, in order, and unpins the sectors |
| Log.Log.BeginTrans | log.c:124-133 | sleeps if a transaction is open; a transaction is open afterwards |
| Log.Log.CommitTrans | log.c:141-155 | the sector writes since begin_trans are exactly those of the crash theorem, and the disk ends as their last image; no buffer stays pinned or held and no scan for a victim fails |
| Log.Log.ReadHead | log.c:84-96 | reads back the sectors in the header on disk and writes nothing |
| Log.Log.RecoverFromLog | log.c:115-122 | from any disk with a sound header, the writes are exactly those of a recovery, and the log is ready for use |
| Log.RoomLeft | bio.c:82-91 | with fewer pinned and held sectors than buffers, a scan for a victim succeeds |
| Checksum.ChunkingIrrelevant | mkfs.c:159-175 | reading in chunks of any sizes, all but the last whole words, gives the checksum of the whole, so mkfs's 512-byte passes and the 2048-byte passes of ichecksum agree |
| Checksum.DamageUnnoticed | fs.c:200-228 | damage that keeps the size goes unnoticed if and only if the exclusive or of its word differences is zero |
| Checksum.SwapUnnoticed | fs.c:217-223 | two words that have changed places, for example |
| Checksum.OneWordDamageNoticed | fs.c:200-228 | damage within one word is always noticed |
| Checksum.XorBuffer | fs.c:219-223 | the inner loop adds the checksum of the bytes read, padded with zeros |
| Dinodes.Encoding | fs.h:29-44 | every inode record has an encoding as 64 bytes which decodes to it, up to what a short cannot hold |
| Dinodes.StoreDinode | fs.c:243-258 | storing one record in its block changes that record and no other |
| Dinodes.OnDisk | fs.c:400-411 | a disk that has the inode's record and the data blocks has the file: reading it through the record gives the content |
| Transactions.FileCommitted | fs.c:243-258 | once an inode's record is written, the committed image has the file as it is in memory |
| Transactions.PassesLast | log.c:170-171 | a transaction passes the size test at each of its log_writes if and only if the log has room before the last one |
| Transactions.NeverTooBig | log.c:170-171 | a transaction of few enough sectors passes the size test at each of its log_writes |
| FileSystem.Fs.Balloc | fs.c:52-76 | takes the lowest free block, marks it and zeroes it, and changes nothing else; none only if every bit is set |
| FileSystem.Fs.Bmap | fs.c:587-615 | a block that is there is returned and nothing changes; a missing one was free and nobody's, and no byte of any file changes; every block keeps exactly one owner |
| FileSystem.Fs.Bfree | fs.c:79-95 | clears one bit, or panics exactly if it is clear already |
| FileSystem.Fs.Itrunc | fs.c:622-648 | never panics; frees exactly the blocks the inode owned, direct, listed and the indirect block; every other file is untouched |
| FileSystem.Fs.Readi | fs.c:668-692 | all of the n bytes at off that the file has, and no other; -1 exactly past the end or on 32-bit overflow; no file's content changes even if a hole is filled |
| FileSystem.ReadsJoin | fs.c:680-691 | two reads one after the other are one read of both |
| FileSystem.Fs.WriteBytes | fs.c:723-729 | the data of the inode is the old data with src spliced in at off; no other file changes; the sectors logged are exactly those of the blocks written, and for blocks that were missing the bitmap and the indirect block they are listed in |
| FileSystem.LoggedAtMost | file.c:127-133 | with one bitmap block, a write from off to end logs at most (end - off + 1022) / 512 + 3 sectors |
| Ditto.InodeLayer.Ichecksum | fs.c:200-228 | the checksum of the content, and nothing changes |
| Ditto.InodeLayer.Ilock | fs.c:350-471 | locked if loaded already or if the checksum fits; else the first ditto that verifies, asked in order; else E_CORRUPTED; only a lock that succeeds stays held |
| Ditto.VerdictMeans | fs.c:422-459 | each of these answers if and only if: nothing among the inode, child1 and child2 is loaded or verifies; the inode is or does; it does not and child1 does; neither does and child2 does |
| Ditto.InodeLayer.TryReplica | fs.c:439-446 | tells whether a ditto verifies, and leaves it unlocked |
| Ditto.InodeLayer.Cupdate | fs.c:269-298 | the ditto gets its parent's size and checksum, in memory and on disk, and keeps its blocks |
| Ditto.InodeLayer.IupdateExt | fs.c:237-267 | the inode goes to disk with the checksum of its content, its dittos with the same size and checksum; exactly their inode blocks are logged, that of the last ditto at the end |
| Ditto.MirrorAfterUpdate | fs.c:230-267 | iupdate alone keeps the mirror and the content |
| Ditto.InodeLayer.Iupdate | fs.c:230-235 | a mirrored inode whose record changes stays mirrored |
| Ditto.MirrorAfterWrite | fs.c:702-762 | if inode and dittos all have the bytes written and iupdate follows, the mirror invariant holds again |
| Ditto.InodeLayer.Writei | fs.c:694-762 | -1 exactly past the end, on overflow or beyond the largest file; else the content is the old one overwritten or extended, the checksum fits, a mirror is a mirror again and no other file changed; the sectors logged are exactly those of inode and dittos |
| Ditto.InodeLayer.Iduplicate | fs.c:553-575 | copies whole 512-byte pieces from off until ntotal bytes or the end of src, with its size and checksum; no other file changes |
| Ditto.RescuedAll | fs.c:520-551 | when the loop of irescue ends, the content is the replica's |
| Ditto.HalfRescued | fs.c:520-575 | after part of a rescue the content is the replica's up to there and the old one from there on, it verifies all the same, and it is the replica's if and only if the rest agrees |
| Ditto.VerifiedIsTaken | fs.c:422-437 | an inode loaded from a disk on which it verifies is locked as it is, and no replica is looked for |
| Inputs.MixedRescue | fs.c:520-575 | a damaged file with an intact ditto, of which one chunk of the rescue makes a file that is neither |
| Ditto.InodeLayer.Irescue | fs.c:520-551 | the inode ends with the replica's content and, unless it is empty, a checksum that fits; no other file changes; each of its transactions adds one chunk and never touches the replica |
| Ditto.InodeLayer.IlockTrans | fs.c:356-381 | E_CORRUPTED if and only if neither the inode nor a ditto that is asked is loaded or verifies, with nothing changed; else it is locked, as it was if it is loaded or verifies, with the content of child1 if that is or does, else with that of child2; the panic is never reached |
| Duplicate.Ialloc | fs.c:175-198 | the lowest free inode, fresh on disk; none only if no inode is free |
| Duplicate.Ipropagate | sysfile.c:312-353 | both dittos get all of the content, in transactions that fit; nothing else changes |
| Duplicate.MirrorEstablished | sysfile.c:384-387 | everything propagated, iupdate makes the mirror invariant true |
| Duplicate.DuplicateInode | sysfile.c:355-392 | an inode given dittos keeps its content and is mirrored by them; unless the run ends it is refused if and only if a ditto asked for is there already, and then the inode stays locked and the transaction open |
| Inputs.SecondDuplicateRefused | sysfile.c:369-381 | one more ditto for a file that has two, for example |
| FileCalls.Enter | file.c:137-142 | the same, and unlocked again |
| FileCalls.WriteOne | file.c:149-154 | one transaction writes one chunk, to the inode and its dittos, and commits it to the disk; a write that is refused commits nothing; on a disk with one bitmap block the transaction passes log_write if and only if Overrun.LogSectors, known before, is less than the log holds |
| Overrun.WriteFits | log.c:170-171 | the sectors in the log before the last log_write of a write are exactly LogSectors: the blocks of inode and dittos, an indirect block for each that gets an entry, the bitmap if a block is missing, and the inode blocks but the last |
| Overrun.CostBounds | fs.c:723-748 | for n blocks and d dittos that is (d + 1) n and the inode blocks, with at most one more for each inode and one for the bitmap if blocks are missing, and none if they are not |
| Overrun.HowManyFit | file.c:127-133 | with mkfs's log, n blocks pass: without dittos always up to 9; with one always up to 7 and never from 9 on; with two always up to 4 and never from 6 on; over blocks that are there if and only if n <= 8 with one ditto and n <= 5 with two |
| Inputs.MirroredWriteOverruns | file.c:127-133 | a mirrored file of 4096 bytes on a sound image: one chunk written over it does not pass |
| FileCalls.HealedThenWritten | file.c:116-163 | repair followed by writing changes the file and its dittos only, and keeps a mirror |
| FileCalls.File.Write | file.c:116-163 | E_CORRUPTED if and only if neither the file nor a ditto that is asked is loaded or verifies; else the repaired content with a prefix of src written at the offset, all of it unless the file would be too large or the offset is past the end; the offset moves along; each chunk is one committed transaction, after which inode and dittos read the same |
| FileCrash.CrashedRun | log.c:116-187 | a crash in any of a sequence of transactions leaves a whole number of them |
| FileCrash.CrashedTrail | log.c:116-187 | whatever is known of a file after each transaction is what a crash leaves, for some number of them |
| FileCrash.CrashedWrite | file.c:116-163 | if its transactions pass log_write, a crash anywhere in a filewrite leaves, after recovery, the disk as it was, or a whole number of chunks written, in order, and the same in the inode and all its dittos |
| FileCrash.CrashedRescue | fs.c:520-551 | a crash anywhere in a rescue leaves the replica intact, and the inode with a whole number of the replica's chunks; with at least one it verifies on the recovered disk, and it is the replica's content if and only if the rest agrees |
| FileCrash.NoneTooBig | log.c:170-171 | with mkfs's log, the transactions of filewrite on an inode without dittos, of irescue, ipropagate and duplicate all pass log_write |
| Mkfs.MarkNext | mkfs.c:317-332 | handing out blocks in order and writing the bitmap at the end is what balloc would have done block by block |
| Mkfs.Builder.constructor | mkfs.c:101-113 | the zeroed image satisfies the invariants, with no inode in use |
| Mkfs.Builder.Ialloc | mkfs.c:300-315 | the next inode; none if the inode blocks are full |
| Mkfs.Builder.Iappend | mkfs.c:335-383 | the content is the old one with p behind it; no other file changes; fails only beyond the largest file or at the log |
| Mkfs.Builder.Readi | mkfs.c:385-409 | all of the n bytes at off that the file has, and no other |
| Mkfs.Builder.Ichecksum | mkfs.c:429-451 | the same checksum as the kernel's |
| Mkfs.Builder.Stamp | mkfs.c:178-187 | afterwards the file verifies, with the same content |
| Mkfs.Builder.CopyContent | mkfs.c:453-467 | dst has the content of src; nothing else changes |
| Mkfs.Builder.RoundSize | mkfs.c:192-200 | the size goes up to the next multiple of 512; the content stays a prefix; a hole results if and only if the size was a multiple already and there is no block behind it |
| Mkfs.FullBlockHole | mkfs.c:192-200 | a directory of 512 bytes, for example |
| Mkfs.Builder.AddDitto | mkfs.c:202-219 | a new inode with the content, size and checksum of inode i |
| Mkfs.Builder.Mirror | mkfs.c:202-225 | the mirror invariant holds of the inode and its two dittos |
| Mkfs.Builder.Balloc | mkfs.c:317-332 | the bitmap written is the one the invariants speak of |
| Mkfs.Builder.Finish | mkfs.c:192-230 | unless the rounded size leaves a hole, exactly when RoundSize says, or the disk is full, the root directory keeps its content, verifies, and is mirrored by two dittos on an image with its bitmap |
| Mkfs.Builder.Mount | mkfs.c:228-231 | the kernel's inode layer on the finished image satisfies its invariant |
| Heap.Allocator.FindPlace | umalloc.c:30-32 | the walk ends at the one place in the address-ordered list where the block belongs |
| Heap.FreeOk | umalloc.c:33-43 | linking and merging on both sides keeps the heap sound: sorted, tiled without gap or overlap, and no two free neighbours |
| Heap.Allocator.Free | umalloc.c:24-44 | the block is no longer live, the heap is sound and coalesced, every other live block keeps its size; the next search starts at the block before it |
| Heap.Allocator.Morecore | umalloc.c:46-61 | grows the heap by what was granted, or refuses; if sbrk did not honour the request, the heap is overrun |
| Heap.Allocator.Malloc | umalloc.c:63-90 | a fresh block of exactly the units asked for, disjoint from every live one: the end of the first free block after freep that has them; sbrk is asked if and only if no free block has, once; null if and only if it is asked and refuses; overruns the break if and only if it is asked, does not refuse and the request is out of reach |
| Heap.Conservation | umalloc.c:24-90 | free units and live units add up to the units obtained from sbrk |
| Heap.PayloadFits | umalloc.c:69 | the block's payload holds the request if and only if rounding up does not wrap |
| Heap.NoPayload | umalloc.c:69 | malloc(0xFFFFFFFF) takes one unit, for the header |
| Heap.SbrkGrants | sysproc.c:45-56 | a successful sbrk has moved the break by what morecore takes if and only if the request is in reach; if not, the break has not gone up at all |
| Heap.NothingGranted | proc.c:108-123 | malloc(0x80000000): sbrk succeeds and grants nothing |
| Heap.OverrunBreaks | umalloc.c:57-59 | a header written past the break breaks the heap's invariant |
| Proc.Ptable.constructor | proc.c:78-103 | the first table of every run, with init in slot 0: the invariant holds |
| Proc.Ptable.Allocproc | proc.c:34-50 | takes the first unused slot and the next pid, and changes nothing else; none only if no slot is unused |
| Proc.Ptable.Wakeup1 | proc.c:380-388 | afterwards nobody is asleep on the channel; who was is runnable, and nothing else has changed |
| Proc.Ptable.Wakeup | proc.c:390-397 | the same, with the invariant kept |
| Proc.Ptable.Sleep | proc.c:342-365 | asleep on its channel, with the invariant kept |
| Proc.Ptable.Schedule | proc.c:266-277 | the first runnable process from there on runs; none only if there is none |
| Proc.Ptable.Kill | proc.c:402-420 | the first slot with the pid is marked, and runnable if it was asleep; nothing else changes; false exactly if no slot has it |
| Proc.Ptable.ForkFail | proc.c:139-144 | the slot is given back and the invariant kept |
| Proc.Ptable.ForkStart | proc.c:157-160 | the child is runnable with its parent set, and its pid is returned |
| Proc.Ptable.Exit | proc.c:186-201 | itself a zombie, its children init's, its parent not asleep in wait, nor init if one of them is a zombie, and nothing else; no wakeup is lost |
| Proc.Ptable.Wait | proc.c:208-247 | reaps the first zombie child exactly if there is one, clearing its slot; fails exactly without children or killed; else sleeps, and no wakeup is lost |
| Proc.RunKeeps | proc.c:34-420 | in every state of every run, with fork in its unlocked steps: every process but init has a live parent, no process sleeps in wait while a child of its is a zombie, and the slots of unfinished forks belong to the processes in them |
| Proc.RunNoKilledWaiter | proc.c:237-245 | in every state of every run nobody who has been killed is asleep in wait |
| Proc.StepWakes | proc.c:390-397 | right after a wakeup of a run nobody is asleep on its address |
| Proc.RunFlag | proc.c:222-235 | in every state of every run a slot is marked killed if and only if a kill has hit it since it was last reaped |
| Proc.BornKilled | proc.c:402-420 | a run in which a child is born killed: kill(0) marks an unused slot, and fork takes it |
| Pipe.WrapIndex | pipe.c:92 | the ring index survives the wrap of the 32-bit counters |
| Pipe.WrapCompare | pipe.c:84-105 | comparing wrapped counters decides empty and full correctly |
| Pipe.Pipe.constructor | pipe.c:21-45 | a new pipe is empty, open at both ends |
| Pipe.Pipe.Write | pipe.c:77-97 | the bytes accepted are the next ones of src in order; it sleeps only when full, returns n only with all of them in, and wakes the readers on the way |
| Pipe.Pipe.Read | pipe.c:99-120 | delivers the oldest undelivered bytes, as many as there are up to n; sleeps only if empty and still open for writing |
| Pipe.Pipe.Close | pipe.c:58-74 | closes one end and wakes the other |
| Pipe.RunsSettled | pipe.c:58-120 | in every state of every run without kills: what has been delivered is a prefix of what was written, nobody sleeps who could go on, and readers and writers never sleep at once |
| Pipe.KilledWriterStrandsReader | pipe.c:83-91 | a killed writer can leave a reader asleep on a full pipe |
| Pipe.WriteSettled | pipe.c:83-97 | and does so if and only if the writer is killed, a reader is asleep, and more is left to write than the pipe holds |
| Vm.KernelMapsAreKernel | vm.c:113-125 | the four kernel mappings lie in the kernel half, whole pages, wherever its data begins |
| Vm.KernelMapsApart | vm.c:113-125 | and no page is in two of them |
| Vm.KernelLayout | vm.c:98-125 | together they map physical memory from KERNBASE up and the devices to themselves, and nothing else |
| Vm.Memory.Kfree | kalloc.c:55-77 | puts a usable frame on the free list, or panics |
| Vm.Memory.Walk | vm.c:42-65 | makes sure of a table; no mapping changes and no frame is lost; fails exactly if kalloc has nothing |
| Vm.Memory.Mappages | vm.c:67-90 | maps each page of the range to its frame and no other page; "remap" only if one was mapped; also for a range that ends at 2^32; fails exactly if kalloc has nothing |
| Vm.Memory.Deallocuvm | vm.c:245-273 | frees each mapped page from newsz to oldsz once, except in the tables it steps over; no frame is lost |
| Vm.SweptExactly | vm.c:258-271 | the sweep leaves no page behind if and only if it steps over none that is mapped |
| Vm.NothingMissed | vm.c:258-262 | nothing is stepped over when the sweep starts at a table boundary or in a table that exists |
| Vm.ShrunkSized | vm.c:245-273 | if every page below the size is mapped and none above, a sweep down to a smaller size leaves that so |
| Vm.GrownSized | vm.c:218-243 | and growing leaves it so if and only if the last new page is not the one left out |
| Vm.Memory.Growproc | proc.c:107-123 | the new size or -1; a process with every page below its size mapped and none above stays so if and only if growproc does not break it: one frame short at a last page that needs a table, or a shrink to 0, which frees the pages and keeps the size |
| Vm.ShrunkAway | proc.c:116-118 | a process of one page that shrinks by it |
| Vm.ShortAnywhere | vm.c:233-240 | growing by a page that needs a table with one frame left, at any page |
| Vm.LeftBehind | vm.c:258-262 | a process that has skipped a table like that and shrinks to page 1030 keeps page 2049 |
| Vm.Memory.Allocuvm | vm.c:218-243 | with enough free frames for pages and missing tables, every new page is mapped to a zeroed frame and newsz returned; with one too few and the last page in need of a table, newsz is returned with that page missing; otherwise 0, with the pages as before; a frame is lost exactly when the last free one was taken for a page in need of a table |
| Vm.LastFrame | vm.c:233-240 | the first page of a space without tables, with one frame left, is such a case |
| Vm.MissedPage | vm.c:258-262 | a sweep from page 1 with no first table steps over page 1024 |
| Vm.Memory.Freevm | vm.c:275-292 | never panics; afterwards the free list is the old one and every frame of the space, each once |
| Vm.Memory.Setupkvm | vm.c:127-144 | a new space of frames that were free, in which each page of each mapping has its frame and no other page is mapped; refused if and only if there are too few frames for the directory and the tables of the mappings, and then all are lost; no panic if no page is in two mappings |
| Vm.KernelTableCount | vm.c:113-125 | the kernel's own mappings need 64 tables |
| Vm.KernelNeedsMore | vm.c:139-142 | 64 free frames are not enough for setupkvm |
| Vm.Memory.Copyuvm | vm.c:307-336 | the copy has the parent's bytes page by page in frames that were free, nothing above, and the parent is as it was; made if and only if there are frames for the kernel's tables, the pages and their tables; if not, all frames are lost if there are too few for the kernel's tables, else one if the frames run out when a page has its frame and needs a table, else none; no panic if the parent has all its pages |
| Vm.LosesTheOnly | vm.c:326-335 | one page and one frame after the kernel's is such a case |
| Vm.CopyApart | vm.c:307-336 | parent and copy share no frame |
| Vm.FreeingCopyRestores | vm.c:275-336 | freeing a copy gives back exactly the frames that making it took |
| Vm.Memory.Copyout | vm.c:353-377 | exactly the bytes asked for change, up to the first page that is not mapped |
| Shell.Peek | sh.c:316-326 | skips no token, and tells whether the next one is among those asked for |
| Shell.GetToken | sh.c:271-314 | the next token of the line and the rest of its tokens |
| Shell.LexExactly | sh.c:267-314 | the tokens found in a text are the one way to read it: words as long as can be, ">>" as one, blanks between |
| Syntax.WrapLast | sh.c:380-403 | the redirection written last is outermost |
| Shell.LineWritten | sh.c:350-452 | every line of the grammar, with redirections before, between and behind its words, parses to what it means, with nothing taken of what follows |
| Shell.LineFound | sh.c:350-452 | whatever parses is a line of the grammar with that meaning, followed by the rest |
| Shell.ParsesExactly | sh.c:333-452 | so a text parses to a command if and only if it means that command |
| Shell.Unambiguous | sh.c:333-452 | and it means one at most |
| Shell.ParseLineAt | sh.c:350-365 | the parser on characters agrees with the one on tokens: the same command, the same rest, or a panic where that has no parse |
| Shell.ParseSpelled | sh.c:350-452 | tokens that spell a command in parentheses parse to that command, whatever may follow it |
| Shell.LexShow | sh.c:271-314 | printing a command and splitting it into tokens gives tokens that spell it |
| Shell.RoundTrip | sh.c:333-452 | parsing the printed form of a command of any depth gives that command, with nothing left over |
| Shell.NulTerminate | sh.c:454-499 | writes a NUL at the end of each word of the command and nowhere else |
| Shell.TerminatedWord | sh.c:454-499 | no terminator falls inside a word, so each reads back whole as a C string |
| Shell.ParseCmd | sh.c:333-348 | gives the command the text means, its words C strings in the buffer; panics with the buffer untouched if and only if the text means none |
| Directory.Namecmp | fs.c:767-771 | names are the same exactly if their first 14 characters are |
| Directory.FieldName | string.c:68-79 | what strncpy stores reads back as the name, cut to 14 characters |
| Directory.Dirlookup | fs.c:773-799 | finds a name exactly if the directory's map has it, with its inode number and the offset of its entry |
| Directory.FreeSlot | fs.c:815-821 | the first free entry, or the end |
| Directory.Directory.Dirlink | fs.c:801-829 | adds one name to the map, refuses exactly a name that is there; a cleared slot is used again before the directory grows |
| Directory.Isdirempty | sysfile.c:170-184 | no entry is in use from the third on |
| Directory.EmptyMeans | sysfile.c:170-184 | with "." and ".." in the first two, that is so exactly if the map has no other name |
| Directory.Directory.Unlink | sysfile.c:208-229 | takes one name out of the map; refuses exactly a missing one, ".", ".." and a directory with entries of its own |
| Path.ElementsOfJoined | fs.c:831-869 | any list of names has a path that splits into it |
| Path.Skipelem | fs.c:831-869 | the first element, cut to 14 characters, and a rest that has exactly the other elements |
| Path.Namei | fs.c:871-913 | following the path is following its elements one directory after the other, from the root or from the working directory |
| Path.Nameiparent | fs.c:871-913 | the same but for the last element, which is returned |

## Findings

Places where the code does not keep what its design promises. For each there is a lemma with an input, and the exact
condition under which the promise is kept.

* A writer killed while the pipe is full returns without waking the readers it has written for
  (`Pipe.KilledWriterStrandsReader`; exactly when, `Pipe.WriteSettled`).
* `kill(0)` marks the first unused slot, and the next child to take it is born killed, since only reaping clears the
  mark (`Proc.BornKilled`; what the mark means in every run, `Proc.RunFlag`).
* `deallocuvm` steps over a missing page table by a whole table's length from wherever it is, which can pass over
  mapped pages (`Vm.MissedPage`; exactly when, `Vm.SweptExactly`). It does not as long as every page below the
  process's size is mapped (`Vm.ShrunkSized`).
* `growproc` keeps that, but for two cases (`Vm.Memory.Growproc`): the next finding, and a shrink to 0, which returns -1
  with the pages freed and the size as it was (`Vm.ShrunkAway`). A process grown past a table that way loses pages when
  it shrinks (`Vm.ShortAnywhere`, `Vm.LeftBehind`).
* `allocuvm` does not look whether `mappages` has failed. If that happens at the last page, the process is told it has
  grown and the page is missing; the frame for it is lost (`Vm.LastFrame`; exactly when, `Vm.Memory.Allocuvm`).
* A `fork` that fails for want of memory loses some. If there are too few free frames for the kernel's tables, 65 with
  vm.c's mappings, `setupkvm` returns with all of them lost (`Vm.KernelNeedsMore`); and `copyuvm` loses the frame of a
  page whose table it cannot get (`Vm.LosesTheOnly`). Exactly when, `Vm.Memory.Copyuvm`.
* `malloc` of the last few values below 2^32 wraps and returns a block that is too small (`Heap.NoPayload`; exactly
  when, `Heap.PayloadFits`).
* `malloc` of 2^31 bytes or so passes `sbrk` a number that is negative as an int. `sbrk` then succeeds without granting
  anything, and `morecore` writes a header past the break (`Heap.NothingGranted`, `Heap.OverrunBreaks`; exactly when,
  `Heap.SbrkGrants`).
* A rescue cut short by a crash leaves a mix of the old file and its replica whose checksum is the mix's own, so it
  verifies and is never repaired (`Inputs.MixedRescue`, `FileCrash.CrashedRescue`, `Ditto.VerifiedIsTaken`). The replica
  is intact, and the mix is its content if and only if what was left to copy agreed.
* `filewrite` sizes its chunks for one inode (file.c:127-133), but a write goes to the dittos in the same transaction,
  which can be more than the log holds: `log_write` panics (`Inputs.MirroredWriteOverruns`; exactly when,
  `Overrun.WriteFits` and `FileCalls.WriteOne`; in numbers, `Overrun.HowManyFit`). Without dittos every chunk fits
  (`FileCrash.NoneTooBig`).
* Damage whose word differences cancel is not noticed (`Checksum.SwapUnnoticed`; exactly when,
  `Checksum.DamageUnnoticed`).
* `mkfs` rounds the root directory's size up by a whole block when it is a multiple of 512 already, and the block is
  missing (`Mkfs.FullBlockHole`; exactly when, `Mkfs.Builder.RoundSize`).
* `duplicate` of an inode that has dittos returns with its transaction open and the inode locked
  (`Inputs.SecondDuplicateRefused`; exactly when, `Duplicate.DuplicateInode`).

## Left out

- FileCrash.CrashedWrite: of transactions that pass log_write. Without dittos all do (FileCrash.NoneTooBig); with dittos it is known before each (FileCalls.WriteOne), and one that does not pass panics in the source before it commits.
- FileCrash.CrashedRescue: for disks with one bitmap block, and a replica that is on disk as it is in memory.
- Overrun.WriteFits: for disks with one bitmap block, as mkfs makes them.
- Log.Log.constructor: takes the log's place and size from the superblock as parameters; the recovery that initlog ends with is Log.Log.RecoverFromLog.
- Dinodes.Encoding: the record's device numbers are not modelled, and their bytes not read.
- FileSystem.Fs.Readi: for files and directories; device files go to their driver.
- FileSystem.Fs.LogWrite: does not model the panics of log_write. That a transaction fits is stated where it is known, and Log.Log.LogWrite models the panics.
- Ditto.InodeLayer.IlockTrans: the inode's record and the dittos' records are taken to be intact; only content is damaged. Damage to inode blocks, bitmap or indirect blocks is not modelled.
- Ditto.InodeLayer.Writei: for files and directories; device files go to their driver.
- Mkfs.Builder.RoundSize: for a directory below the largest size.
- Mkfs.Builder.Finish: stops at a hole, where mkfs goes on and reads sector 0 for the missing block.
- Pipe.Pipe.Close: nobody is asleep on the end that is closed, since its last file is gone. The pipe's own page, which goes when both ends are closed, is not modelled.
- Heap.Allocator.Free: for a block that is live; freeing anything else is the caller's error, which the source does not detect.
- Vm.Memory.Mappages: pages mapped twice are reported, not undone; on failure, frames already taken by a half-built space stay with it, as in the source.
- Vm.Memory.Kfree: usable frames start at EXTMEM; the source starts at the linker's `end`, just above it.
- Vm.Memory.Copyout: permission bits are not modelled, so a page without PTE_U counts as mapped; a missing table, which uva2ka dereferences, is reported as missing.
- Vm.Memory.Allocuvm: the pages it is to map are not mapped yet, as its callers see to.
- loaduvm, inituvm and clearpteu.
- The inode cache's recycling and reference counts: every inode has a place in memory.
- Locks, lock order, interrupts and the processor's memory order: each locked region is one step.
- fileread, sys_link, create and the system calls around them, which combine operations that are modelled.
- Directories as files: directory operations work on the content, which readi and writei are proved to read and write.
- mkfs's loop over its arguments and the superblock's own sector.
- The console, IDE and other drivers, traps, boot code and the other user programs.
- Running commands in the shell: fork, exec, redirection and pipes after parsing.
