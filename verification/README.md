# UnixOS: the file system, the concurrent structures and the loaders

A Dafny model of the parts of the UnixOS kernel where correctness is hard to see: the write-ahead journal, ext2 on top
of it, the ring buffer, the wait queues, the run queues, the initial stack of execve, the cpio and ELF loaders and the
ramfs inode tree. Code that updates things in place is modelled by classes and loops (`Journal`, `Ext2Volume` and its
clients, `RingBuffer`, `SchedulerLoops`, `UserMemory`, `ExecStack`, `ElfLoader`, `RamfsLoops`, `Cpio`), each proved
against a specification; the results that span operations are lemmas about that specification. `dafny verify
dfyconfig.toml` checks everything.

**Journal.** A device holds back writes until a flush. `JournalDisk.Crash` is a device that may persist any choice
among the writes it holds back; `JournalOrdered.OrderedCrash` one that persists them in the order of issue. `Replay` is
`journal_replay`, `Recovered` what the blocks outside the journal are worth, that is, what a replay would leave there.
`JournalCrash.Ops` is the sequence of device operations of one `journal_commit`, for every way it can end, and
`Journal.TransactionLog.Commit` is proved to issue exactly that sequence. Hypotheses: one block write lands whole, a
failed write changes nothing, targets lie outside the journal area, a flush succeeds (its result is not looked at by the
code), and a kernel that halts after a failed target write does nothing further. That no ext2 block in the journal area is
ever allocated, the boot sees to if and only if the ext2 blocks have the size of the journal's
(`Ext2Crash.ReservedIffSameSize`).

**ext2.** `Ext2Owner.Owned` is the ownership rule: every block that an inode refers to, directly or through indirect
blocks, is a data block marked in its bitmap, no block is referred to from two places, and the metadata areas are marked.
`Ext2Volume.Volume.Valid` is the conservation of the free counts, in memory and on the disk. `log` records every write,
with whether it went through the journal, and `history` the disk after each, so that `OwnedSince` speaks of every state in
between; these are also the states that a crash and replay can leave (`Ext2Crash.OwnedAfterCrash`). `lost` counts failed
requests, so that what an operation promises without I/O errors can be said apart. Every read and every write may fail
at any time. `Ext2File.Content` is the byte at a position of a file, through the direct, indirect and double indirect
mapping. What the operations leave of inodes, bitmaps, records and headers is said by bytes, in the numbers of the
formats, in `Ext2Stat`, `Ext2OnDisk`, `JournalFormat.HeaderWords` and `JournalFormat.JudgeIff`.

**Concurrency.** `RingSpsc` and `WaitQueue` are machines whose steps are the single loads, stores and locked sections of
the code; the theorems are about every run. Scheduler functions are atomic steps, as they run under the queue locks.

Where a property one would expect is false of the code, the code is modelled as it is and the exact condition is proved:

- The header clear of a commit (src/kernel/fs/journal.c:278) is neither flushed nor checked. A run of transactions is
  safe at every crash point if and only if no transaction disturbs a slot of an earlier one whose committed header may
  still be on the disk (`JournalRuns.RunSafeIffUndisturbed`, and `JournalOrdered.OrderedSafeIffUndisturbed` for a device
  that keeps the order, where only a failed clear matters). Two commits of one block each are enough to break it
  (`JournalWitness.TwoCommitsUnsafe`, `JournalWitness.FailedClearUnsafe`).
- Replay does not flush before it clears the header (src/kernel/fs/journal.c:176). On a reordering device a crash then
  loses nothing if and only if everything was in place already (`JournalRuns.ReplaySafeIffInPlace`); otherwise it does
  lose it (`JournalWitness.ReplayUnsafe`).
- The boot goes on after a replay that stopped on an error (src/kernel/init/main.c:116). What follows is safe if and only
  if it never gets as far as a header and disturbs no slot, unless all targets were right already
  (`JournalBoots.StopSafeIff`).
- Truncate clears bitmap bits before it stores the inode. Without I/O errors every state on the way keeps the ownership
  rule if and only if no direct pointer past the new end is set, and with that condition every failure keeps it as well
  (`Ext2Truncate.Truncate`); freeing a block that the stored inode refers to always breaks the rule
  (`Ext2Truncate.FreedTooEarly`), as on the volume of `Ext2Fresh.OneBlockOwned`.
- `ext2_dir_add_entry` notices a duplicate if and only if some direct block has the name and no block before it has room
  (`Ext2DirOps.AddEntry`, `Ext2DirOps.DuplicateMissed`).
- `ext2_sync_locked` marks as clean what it failed to store. The totals, and the counts of each group, are right on the
  disk afterwards if and only if they were before or their store succeeded (`Ext2Volume.Volume.Sync`); as long as no
  request fails, a clean volume has its counts on the disk (`Ext2Volume.Volume.CleanIsStored`). After an allocation the
  totals on the disk are wrong until they are stored (`Ext2Volume.Volume.AllocAndSync`), and a mount makes a valid volume
  if and only if they were stored (`Ext2Volume.Volume.RebootValidIff`).
- `read_inode_data` computes the end of a read in 32 bits: a read from inside a file stays inside if and only if its end
  does not wrap around (`Ext2Read.StaysInside`).
- A waiter that enters the queue again keeps the queue and the chains of all wakers intact if and only if no waker has
  its entry still to visit (`WaitQueueSafe.PrepareKeepsIff`). Every run in which that never happens loses no wakeup,
  whenever the condition changes and `wake_all` is called (`WaitQueueSafe.NoLostWakeup`); it cannot happen if the
  condition holds before `wake_all` is called and stays true (`WaitQueueSafe.DisciplinedIsCareful`). Otherwise a waiter
  can be lost for good (`WaitQueueLost.LostForever`). With two wakers at once one `wake_all` can return before every
  waiter is awake (`WaitQueueLost.ReturnedEarly`).
- Demoting a process keeps every queue intact if and only if this CPU owns it (`SchedInvariant.DemoteKeepsIff`); a process
  that another CPU has stolen breaks the thief's queue (`SchedulerLoops.DemotingStolenBreaks`). Adding a process keeps
  them intact, with everyone on them, if and only if it is on none, or alone on the one it is added to
  (`SchedAgain.AddKeepsIff`).
- A rename in ramfs keeps the link counts if and only if it does not move a directory to another directory
  (`RamfsLinks.RenameLinks`); the new name leads to the moved inode if and only if no other entry had it
  (`RamfsNames.RenameResolves`); and the inodes stay one tree that hangs from the root if and only if the inode is not
  moved to a directory at or below it (`RamfsRoot.RenameRooted`, with a run that does it in
  `RamfsWitness.MoveIntoItself`).
- The last close of a ramfs inode frees it if it has no links. The child lists stay intact if and only if no other
  directory lists it and it is not the root (`RamfsRelease.CloseKeeps`), which is so as long as no directory has moved to
  another one (`RamfsLinks.RunLinks`); after such moves a listed directory can be freed (`RamfsWitness.ReleasedListed`).
- An inode of ramfs is to be freed only when nobody has it open. The open counts are right, and no open inode is freed, if
  and only if no open directory is removed (`RamfsOpen.StepCounted`); rmdir does not look (`RamfsWitness.RemovedOpen`).
- Creating and renaming in ramfs keep names distinct if and only if the name as it is stored is new
  (`RamfsDistinct.MakeDistinct`, `RamfsDistinct.RenameDistinct`); the code does not see to that
  (`RamfsWitness.MadeTwice`).

## Model

| member | source | states |
|---|---|---|
| Crc32.ShiftByte | src/kernel/fs/journal.c:60-63 | the mask-and-xor bit loop makes eight shifts of the reflected register |
| Crc32.JournalCrc | src/kernel/fs/journal.c:54-66 | the byte loop computes Crc of the covered bytes |
| Crc32.CrcIsRfc1952 | src/kernel/fs/journal.c:54-66 | for every message it is the table-driven CRC-32 of section 8 of RFC 1952 |
| Crc32.KnownAnswers | src/kernel/fs/journal.c:54-66 | two entries of the standard table and the CRC of one letter, as numbers |
| Crc32.BurstDetected | src/kernel/fs/journal.c:54-66 | messages that differ at most within four consecutive bytes have the same CRC if and only if they are equal |
| JournalFormat.JudgeCommitted | src/kernel/fs/journal.c:143-158 | replay understands a committed header as exactly the targets it was written for; one without targets is discarded |
| JournalFormat.JudgePending | src/kernel/fs/journal.c:143-158 | a pending header is never replayed |
| JournalFormat.JudgeZero | src/kernel/fs/journal.c:125-127 | a cleared slot is never replayed |
| JournalFormat.Examine | src/kernel/fs/journal.c:143-158 | the checks of replay on the header, in its order, decide as Judge says |
| JournalFormat.JudgeIff | src/kernel/fs/journal.c:143-158 | by the bytes of the slot: nothing is done if and only if magic or committed flag are wrong; it is redone if and only if they are right, the count is 1 to 8 and the CRC that of RFC 1952; the targets are its words |
| JournalFormat.DamagedHeaderNotReplayed | src/kernel/fs/journal.c:143-153 | a committed header damaged only within four consecutive covered bytes, its stored CRC intact, is never replayed |
| JournalFormat.HeaderWords | include/kernel/journal.h:25-33 | the header by its bytes: magic, id, count, committed flag, targets, the CRC of all of them, zeroes |
| JournalDisk.WriteTargetsAt | src/kernel/fs/journal.c:159-173 | the last copy of a target wins and every other block keeps its contents |
| JournalDisk.ReplayIdempotent | src/kernel/fs/journal.c:129-179 | replaying twice is replaying once, and nothing is left to replay |
| JournalCrash.SlotPlaces | src/kernel/fs/journal.c:223-264 | the copies go to the blocks from 2 on, the header to block 1 |
| JournalCrash.BetweenRecovers | src/kernel/fs/journal.c:129-179 | whatever a crash leaves between two commits, replay recovers the contents as they were |
| JournalCrash.CommitPoint | src/kernel/fs/journal.c:255-264 | a crash around the commit point recovers all of the transaction or none, as the header on the disk decides |
| JournalCrash.WhileApplying | src/kernel/fs/journal.c:266-276 | a crash that persists any choice of the target writes recovers the whole transaction |
| JournalCrash.AttemptSafe | src/kernel/fs/journal.c:218-292 | crash atomicity of one commit, however it ends, after any number of its operations, on a reordering device |
| JournalCrash.AttemptBetween | src/kernel/fs/journal.c:218-292 | what a commit that returned leaves for the next one |
| JournalRuns.CommitAtomic | src/kernel/fs/journal.c:218-292 | from a durably clean header, after a crash anywhere, a replay leaves the targets all old or all new and nothing else changed; all new once the commit has succeeded |
| JournalRuns.RunSafeIffUndisturbed | src/kernel/fs/journal.c:218-292 | on a reordering device a run of commits is safe at every crash point if and only if no commit disturbs the slots of a header that may still be there |
| JournalRuns.ReplaySafeIffInPlace | src/kernel/fs/journal.c:159-179 | on a reordering device a crash during or after replay loses nothing if and only if every target already holds what replay writes |
| JournalOrdered.OrderedCrashIsPrefix | src/kernel/fs/journal.c:218-292 | on an ordered device a crash leaves a prefix of everything written, flushes or not |
| JournalOrdered.AttemptWrites | src/kernel/fs/journal.c:218-292 | the writes of an attempt, in order, are those among its device operations |
| JournalOrdered.AttemptOrderedSafe | src/kernel/fs/journal.c:218-292 | after any prefix of a commit's writes replay recovers the transaction if and only if its committed header is among them |
| JournalOrdered.OrderedSafeIffUndisturbed | src/kernel/fs/journal.c:218-292 | on an ordered device every prefix of a run recovers exactly the transactions that reached the disk if and only if no commit disturbs the slots of a header left by a failed clear |
| JournalOrdered.ClearsSucceed | src/kernel/fs/journal.c:278-281 | if every clear succeeds nothing is ever disturbed |
| JournalOrdered.ReplayCutSafe | src/kernel/fs/journal.c:129-179 | on an ordered device a replay cut short leaves the disk worth the same |
| JournalBoots.StoppedSafeIff | src/kernel/fs/journal.c:160-292 | on a disk with a transaction half redone a run of commits is safe at every crash point if and only if no commit disturbs its slots and, unless all its targets are right already, none gets as far as a header |
| JournalBoots.StopSafeIff | src/kernel/init/main.c:112-123 | the same for the run that follows a replay which stopped after any number of targets, or on the header |
| JournalBoots.BootSafe | src/kernel/fs/journal.c:129-292 | one boot, with a replay that completes or stops, commits and a crash anywhere, adds exactly the transactions whose committed header reached the disk |
| JournalBoots.BootsSafe | src/kernel/fs/journal.c:129-292 | after any number of boots and crashes, crashes during replay and replays that stopped included, a completed replay leaves exactly the transactions whose committed header reached the disk, in order |
| JournalSuper.WithNextReads | src/kernel/fs/journal.c:283-287 | the superblock that a commit stores is the one in hand but for its fourth word, the next id |
| JournalSuper.FreshSuperReads | src/kernel/fs/journal.c:73-88 | a freshly formatted superblock: magic, version 1, 32 blocks, next id 1, zeroes |
| JournalSuper.NeverFormatted | src/kernel/fs/journal.c:90-123 | once the superblock is good it stays good over any number of boots and crashes, so that no later boot formats the journal |
| JournalWitness.TwoCommitsUnsafe | src/kernel/fs/journal.c:218-292 | on a reordering device two commits of one block each, with different data, are unsafe from any clean start |
| JournalWitness.FailedClearUnsafe | src/kernel/fs/journal.c:278-281 | on an ordered device so are they if the clear of the first fails |
| JournalWitness.ReplayUnsafe | src/kernel/fs/journal.c:159-179 | on a reordering device replaying a committed header whose target is not written yet is unsafe |
| Journal.BlockDevice.Write | src/kernel/fs/journal.c:68-71 | a write changes one block or, if it fails, nothing |
| Journal.TransactionLog.Init | src/kernel/fs/journal.c:90-123 | a good superblock is taken with the id that it stores, and the disk stays; any other is replaced by a fresh journal; it fails only on a device error |
| Journal.TransactionLog.FormatFresh | src/kernel/fs/journal.c:73-88 | without device errors the journal area is a fresh superblock, written last, and zeroes; on an error the superblock is as it was; nothing outside the journal area changes |
| Journal.TransactionLog.Begin | src/kernel/fs/journal.c:181-197 | a free slot becomes an empty transaction that carries the next id, which goes up by one modulo 2^32; before initialisation it is refused |
| Journal.TransactionLog.LogBlock | src/kernel/fs/journal.c:199-216 | one block and its target are appended, or the transaction stays as it was; the ninth is refused, and any other only for want of memory |
| Journal.TransactionLog.Abort | src/kernel/fs/journal.c:300-313 | the slot is free and every buffer has been freed |
| Journal.TransactionLog.WriteIntent | src/kernel/fs/journal.c:223-264 | the data blocks and both headers are issued in order with their flushes, or a prefix of that up to the write that failed |
| Journal.TransactionLog.Retire | src/kernel/fs/journal.c:278-290 | the clear and the superblock follow, each only if its write succeeded; the next id in memory is past this one, and the superblock stored has it in its fourth word and every other byte as before |
| Journal.TransactionLog.Commit | src/kernel/fs/journal.c:218-292 | the device operations are exactly those of one attempt on the logged transaction, 0 is returned if and only if it was done, without device errors it is done and cleared, and every return frees the slot and its buffers; the superblock on the disk stays good, and after a commit that was done without device errors it is the one in hand with the next id |
| Journal.TransactionLog.Replay | src/kernel/fs/journal.c:129-179 | the writes of a replay are issued in order up to the first failure; whatever fails, the disk is worth what it was; on success the contents are what it was worth, and without device errors the disk is exactly as Replay describes |
| Journal.TransactionLog.Redo | src/kernel/fs/journal.c:163-178 | the loop over the targets and the clear: each slot goes to its target in order, and every stop on the way leaves the disk worth the same |
| Journal.ReplayIssued | src/kernel/fs/journal.c:129-179 | the writes of a replay, the clear included, make the disk that Replay describes |
| Journal.TransactionLog.JournaledWrite | src/kernel/fs/ext2.c:101-113 | an atomic block store: 0 means this block is written and no other changed, any other return that nothing outside the journal changed, and every return frees the slot and its buffers; with an open window, memory and no device error it returns 0; each call takes one id, and without device errors the superblock has the next one |
| Journal.TransactionLog.WriteTwice | src/kernel/fs/ext2.c:101-113 | two block stores one after the other carry different ids |
| Ext2Bitmap.SetBitTests | src/kernel/fs/ext2.c:398-418 | setting a bit sets that bit and no other |
| Ext2Bitmap.ClearBitTests | src/kernel/fs/ext2.c:612-614 | clearing a bit clears that bit and no other |
| Ext2Layout.BlockAtInverse | src/kernel/fs/ext2.c:398-418 | the block of a bit and the bit of a block are inverse |
| Ext2Layout.InodeInTable | src/kernel/fs/ext2.c:206-223 | an inode lies within one block, and that block within its group's table |
| Ext2Layout.InodesApart | src/kernel/fs/ext2.c:206-223 | different inodes never share a byte |
| Ext2OnDisk.LittleEndian | src/kernel/fs/ext2_ondisk.h:66-85 | the bytes of a word, least significant first |
| Ext2OnDisk.BitPlace | src/kernel/fs/ext2.c:403-407 | bit 8 * i + j of a bitmap is bit j of byte i, in the shifts of the code |
| Ext2OnDisk.BlockPlace | src/kernel/fs/ext2.c:606-609 | a block number is its group times the group size, its bit and the first data block |
| Ext2OnDisk.InodePlace | src/kernel/fs/ext2.c:383-391 | inodes follow each other in the table of their group, from the first byte on |
| Ext2OnDisk.PutInodeBytes | src/kernel/fs/ext2.c:391-396 | storing an inode changes its 128 bytes and no other byte of the disk |
| Ext2OnDisk.CreatedNumber | src/kernel/fs/ext2.c:429-429 | the number taken for a bit of an inode bitmap is the one that this bit stands for |
| Ext2OnDisk.SuperPlace | src/kernel/fs/ext2.c:350-377 | the superblock has byte 1024 of the disk, and the descriptor of a group lies in the block where its 32 bytes are |
| Ext2OnDisk.RankIs | src/kernel/fs/ext2.c:225-264 | the paths count the blocks of a file: twelve direct ones, then those of the indirect block, then the double indirect ones |
| Ext2OnDisk.PhysWords | src/kernel/fs/ext2.c:225-242 | a direct block is the word of the inode, an indirect one the word of the block that the inode names at byte 88 |
| Ext2OnDisk.DoubleWords | src/kernel/fs/ext2.c:245-262 | a double indirect block is found through two words, the first block named at byte 92 |
| Ext2OnDisk.NewKind | src/kernel/fs/ext2_ondisk.h:14-16 | a new inode is a regular file or a directory exactly as the top four bits of its mode say |
| Ext2OnDisk.RecordBytes | src/kernel/fs/ext2.c:726-732 | the bytes of a directory record, and that no other byte changes |
| Ext2Inode.PutInodeReads | src/kernel/fs/ext2.c:379-396 | a stored inode is read back and every other inode is as it was |
| Ext2Inode.WithPtrReads | src/kernel/fs/ext2_ondisk.h:66-85 | changing one block pointer changes no other pointer, nor size, mode or sector count |
| Ext2Inode.FreshFields | src/kernel/fs/ext2.c:463-472 | a fresh inode has its mode, one link, size zero and no block |
| Ext2Stat.FreshBlank | src/kernel/fs/ext2.c:463-472 | the bytes of a fresh inode: mode, one link, the three times, and zero everywhere else |
| Ext2Stat.LessIs | src/kernel/fs/ext2.c:620-621 | taking one unit after the other off i_blocks, as long as it lasts, in closed form |
| Ext2Owner.MarkOwned | src/kernel/fs/ext2.c:398-418 | marking a block keeps the ownership rule and changes no reference and no other bit |
| Ext2Owner.UnmarkOwned | src/kernel/fs/ext2.c:602-627 | clearing the bit of a data block that nothing refers to keeps the rule |
| Ext2Owner.UnusedIsFree | src/kernel/fs/ext2.c:398-418 | a block whose bit is clear is nobody's and no metadata |
| Ext2Owner.AdoptOwned | src/kernel/fs/ext2.c:549-580 | storing an inode that drops references or takes over one block that is marked and nobody's keeps the rule |
| Ext2Owner.SystemWriteOwned | src/kernel/fs/ext2.c:350-377 | storing the superblock, the descriptors or an inode bitmap keeps the rule, every reference and every block bit |
| Ext2File.BlockPathInjective | src/kernel/fs/ext2.c:225-264 | no two logical blocks find their number in the same place |
| Ext2File.DataWritePatches | src/kernel/fs/ext2.c:490-504 | writing the block behind logical block l of a file changes exactly that block of that file |
| Ext2File.PutInodeContent | src/kernel/fs/ext2.c:379-396 | a rewritten inode shows the bytes behind its new pointers, and no other file changes |
| Ext2File.AllocContent | src/kernel/fs/ext2.c:540-554 | taking a fresh block for logical block l shows in that block only |
| Ext2File.WriteStep | src/kernel/fs/ext2.c:490-504 | storing the data of a block of the inode in hand: on the disk at most that block changes, and once the inode is stored exactly that block has |
| Ext2File.DropStep | src/kernel/fs/ext2.c:602-627 | giving up a block makes a hole there and nothing else; its bit may then be cleared |
| Ext2File.MetaKeeps | src/kernel/fs/ext2.c:350-377 | writing metadata outside the inode tables changes no file and no inode |
| Ext2Counts.MarkCounts | src/kernel/fs/ext2.c:398-418 | marking a clear block takes one from its group's count, which cannot be zero |
| Ext2Counts.UnmarkCounts | src/kernel/fs/ext2.c:602-627 | clearing a set bit adds one to its group's count |
| Ext2Counts.MarkInodeCounts | src/kernel/fs/ext2.c:420-443 | marking a clear inode takes one from its group's count, which cannot be zero |
| Ext2Volume.Volume.ReadBlock | src/kernel/fs/ext2.c:62-65 | the block as it is on the disk, or a failure |
| Ext2Volume.Volume.JournaledWrite | src/kernel/fs/ext2.c:101-113 | one block changes, or nothing does |
| Ext2Volume.Volume.constructor | src/kernel/fs/ext2.c:125-194 | a mount makes a valid volume if and only if the counts it reads are those of the bitmaps and replay, which comes after it, leaves the descriptors as they were read |
| Ext2Volume.Volume.Write | src/kernel/fs/ext2.c:359-359 | one block changes and the write is logged, or nothing changes; the history stays the states that the logged writes make, and only the superblock is ever written past the journal |
| Ext2Volume.Volume.Sync | src/kernel/fs/ext2.c:350-377 | no file, inode or block bit changes, and every state on the way keeps the ownership rule; nothing is dirty afterwards; the totals, and the counts of each group, agree with the disk if and only if they did before or were dirty and their store succeeded; without I/O errors every store succeeds |
| Ext2Volume.Volume.AllocAndSync | src/kernel/fs/ext2.c:350-418 | after an allocation and a sync nothing is dirty, but the totals on the disk are right if and only if the store of the superblock succeeded |
| Ext2Volume.Volume.CleanIsStored | src/kernel/fs/ext2.c:350-377 | on a valid and clean volume on which no request has failed, the totals and the counts of every group on the disk are those in memory |
| Ext2Volume.Volume.RebootValidIff | src/kernel/init/main.c:98-116 | a crash at any time and a mount make a valid volume if and only if all counts were stored and replay leaves the descriptors as they were read |
| Ext2Volume.Volume.AllocBlock | src/kernel/fs/ext2.c:398-418 | the first clear bit of the group is set and nothing else changes; ENOSPC if and only if the group's count is zero; counts are conserved on every return |
| Ext2Volume.Volume.AllocBlockAnywhere | src/kernel/fs/ext2.c:541-548 | without I/O errors the lowest free block is taken, and it fails, with ENOSPC, only if no block is free anywhere; the free total goes down by the block taken |
| Ext2Volume.Volume.AllocBlockUnlessError | src/kernel/fs/ext2.c:758-770 | the lowest free block is taken; ENOSPC if and only if no block is free anywhere |
| Ext2Volume.Volume.ReserveBlock | src/kernel/fs/ext2.c:67-99 | marks a clear block in range and adjusts the counts, or changes nothing |
| Ext2Volume.Volume.ReleaseBlock | src/kernel/fs/ext2.c:606-625 | clears a set bit in range and adjusts the counts, or changes nothing |
| Ext2Volume.Volume.ReadInode | src/kernel/fs/ext2.c:206-223 | the 128 bytes of the inode; refused only if the number is not valid or a read failed |
| Ext2Volume.Volume.WriteInode | src/kernel/fs/ext2.c:379-396 | the inode is stored, or nothing changes |
| Ext2Volume.ScanFails | src/kernel/fs/ext2.c:398-418 | only a group whose count is zero has no clear bit |
| Ext2Alloc.ReserveBlocks | src/kernel/fs/ext2.c:67-99 | only blocks of the run are marked, their number is returned and leaves the free total, without I/O errors the whole run is marked, and nothing is left to be stored |
| Ext2Alloc.AllocInodeIn | src/kernel/fs/ext2.c:420-443 | the first usable clear bit of the group is set; ENOSPC only if there is none; counts are conserved |
| Ext2Alloc.CreateInode | src/kernel/fs/ext2.c:445-488 | the first free inode of all groups is marked, new and empty, byte for byte, and no other inode or file changed; one inode and no block leaves the free totals, and nothing is left to be stored; a failure changes no inode and no file, and without I/O errors means that no inode is free or that the first free one lies beyond the inode count; every state keeps the ownership rule |
| Ext2FileOps.WriteChunk | src/kernel/fs/ext2.c:531-562 | the chunk is stored in its block, which is taken if need be and then charged to i_blocks, all other bytes of the inode in hand staying; a failure changes no file; every state keeps the ownership rule |
| Ext2FileOps.StoreGrown | src/kernel/fs/ext2.c:565-583 | storing the inode with its new size and times completes the write; if that fails no inode has changed |
| Ext2FileOps.WriteFile | src/kernel/fs/ext2.c:506-584 | on success exactly the given bytes are at offset and everything else of this and every other file is as it was; of the inode the size is the larger of the old one and the end, both times are now, exactly the direct pointers of the range that were 0 are set, i_blocks has gone up by a block for each, and every other byte stays; just these blocks have left the free total, and nothing is left to be stored; a failure leaves at most some of the bytes; without I/O errors it is EFBIG, EIO for a bad inode, EISDIR for one that is no regular file, or ENOSPC with no block free; every journaled write keeps the ownership rule |
| Ext2Truncate.Truncate | src/kernel/fs/ext2.c:586-638 | on success the blocks past the new end are gone, every other byte of every file stays and the ownership rule holds; of the inode the size and times are the new ones, the pointers past the end are 0, i_blocks has gone down by a block for each one freed, as far as it goes, and every other byte stays; without I/O errors every set pointer past the end is freed; a failure changes no inode and keeps the rule if and only if nothing was freed; if no direct pointer past the new end is set, every return and every state on the way keeps the rule, and without I/O errors every state on the way does if and only if that is so; without I/O errors it fails only for a bad inode or a size out of reach |
| Ext2Truncate.TruncatedBytes | src/kernel/fs/ext2.c:599-602 | every byte below the new size stays, and a direct block that starts at it or later reads as zero |
| Ext2Truncate.DropBlocks | src/kernel/fs/ext2.c:602-627 | the loop over the direct blocks: each pointer past the new end goes from the inode in hand; without I/O errors its block is freed, and some state on the way breaks the rule if and only if there is one |
| Ext2Truncate.StoreCut | src/kernel/fs/ext2.c:628-638 | storing the inode without those pointers restores the rule and leaves holes past the new end; if that fails nothing changes, and the rule is broken if a block has been freed |
| Ext2Truncate.FreedTooEarly | src/kernel/fs/ext2.c:602-627 | clearing the bit of a block that a stored inode refers to breaks the rule, for every volume that meets it |
| Ext2Truncate.FreedBreaks | src/kernel/fs/ext2.c:602-633 | while the stored inode still refers to a freed block the rule is broken |
| Ext2Read.BlockPhys | src/kernel/fs/ext2.c:225-264 | the block behind a logical block through all three mappings, 0 for a hole; a failed read also gives 0 |
| Ext2Read.ReadData | src/kernel/fs/ext2.c:301-329 | as many bytes as lie below the size, or all that were asked for if the end wraps around, and without I/O errors the bytes at these positions, holes as zero; a negative result only after a failed read or for 2^31 bytes and more |
| Ext2Read.StaysInside | src/kernel/fs/ext2.c:303-305 | a read from inside the file ends inside if and only if offset plus length does not wrap around |
| Ext2Read.ReadFile | src/kernel/fs/ext2.c:331-348 | for a regular file, the bytes that Content describes at these positions; EIO for a bad inode, EISDIR for another kind, and otherwise refused without I/O errors only for 2^31 bytes and more |
| Ext2Read.WriteThenRead | src/kernel/fs/ext2.c:506-584 | reading back right after a successful write returns the bytes written |
| Ext2Fresh.FreshOwned | src/kernel/fs/ext2.c:125-194 | a concrete volume that meets the ownership rule and the count conservation, with free blocks and inodes |
| Ext2Fresh.OneBlockOwned | src/kernel/fs/ext2.c:602-633 | a concrete volume with a file of one block that meets the ownership rule, and does not between the two writes of truncating that file |
| Ext2Fresh.FreshDirectory | src/kernel/fs/ext2.c:463-472 | a new inode is an empty, well-formed directory on any disk |
| Ext2Crash.ItemsSafe | src/kernel/fs/ext2.c:101-113 | after any prefix of the writes of a run of one-block transactions and bare writes that disturbs nothing, replay recovers exactly the block writes that have happened |
| Ext2Crash.CrashInHistory | src/kernel/fs/ext2.c:101-113 | a crash anywhere in such a run, and replay, leave the volume as it was before the run or after one of its block writes |
| Ext2Crash.OwnedAfterCrash | src/kernel/fs/ext2.c:350-377 | for the writes that a volume has logged since position k, bare writes of the superblock included: a crash anywhere among them, and replay, leave a state of its history from k on or the one before, and keep the ownership rule if these do |
| Ext2Crash.BootsInHistory | src/kernel/fs/ext2.c:101-113 | over any number of boots, with bare writes of the superblock anywhere among their writes, the volume is, but for the superblock, as the one-block transactions that reached the disk have left it, one by one |
| Ext2Crash.ReservedIffSameSize | src/kernel/init/main.c:107-123 | the run of blocks that the boot reserves covers the journal area if and only if the ext2 blocks have the size of the journal's, and then is that area |
| Ext2Crash.ReserveJournal | src/kernel/init/main.c:118-123 | with blocks of one size and without I/O errors every block of the journal area is marked afterwards; only blocks of the run are |
| Ext2Dir.PutRecordReads | src/kernel/fs/ext2.c:726-732 | a record just laid out is read back as its inode, length and name |
| Ext2Dir.InsertLive | src/kernel/fs/ext2.c:697-743 | the block stays tiled, and the new entry comes right after the record that made room |
| Ext2Dir.RemoveFirst | src/kernel/fs/ext2.c:800-868 | removing the first record of a block keeps the tiling and every other entry |
| Ext2Dir.RemoveMerged | src/kernel/fs/ext2.c:800-868 | merging a record into the one before keeps the tiling and every other entry |
| Ext2DirMap.AddedResolves | src/kernel/fs/ext2.c:645-798 | after an add the name resolves to the child and every other name as before |
| Ext2DirMap.DroppedResolves | src/kernel/fs/ext2.c:800-868 | after a remove every other name resolves as before, and the name to nothing if names were distinct |
| Ext2DirMap.AddThenDrop | src/kernel/fs/ext2.c:645-868 | adding an absent name keeps names distinct, and removing it again gives back the same directory |
| Ext2DirMap.DroppedDistinct | src/kernel/fs/ext2.c:800-868 | removing keeps names distinct |
| Ext2DirScan.FindEntry | src/kernel/fs/ext2.c:676-695 | the first record with the name, and the record before it, if and only if the block has the name |
| Ext2DirScan.FindRoom | src/kernel/fs/ext2.c:697-743 | the first record with enough room, if and only if there is one |
| Ext2DirScan.RemoveFound | src/kernel/fs/ext2.c:800-868 | both ways of removing take out exactly the entry found |
| Ext2DirOps.LookupIn | src/kernel/fs/ext2.c:266-299 | without I/O errors, the inode that the name resolves to, 0 if none |
| Ext2DirOps.Lookup | src/kernel/fs/ext2.c:893-913 | the same for a directory inode; 0 for an empty name, a bad inode or a file |
| Ext2DirOps.AddInBlocks | src/kernel/fs/ext2.c:667-744 | the entry is added in the first block with room and no other block changes, nor does the inode of the directory; a duplicate met before that is reported, and otherwise nothing changes |
| Ext2DirOps.AddInNewBlock | src/kernel/fs/ext2.c:746-798 | a new block with the entry is marked, written and only then referred to; of the inode the size goes up by a block, i_blocks too, one more pointer is set, both times are now and every other byte stays; one block leaves the free total, and nothing is left to be stored; a failure changes no file and no inode |
| Ext2DirOps.AddEntry | src/kernel/fs/ext2.c:645-798 | success adds exactly the entry and leaves the inode of the directory as it was, with no block taken, or with one block more; a failure changes no file and no inode; without I/O errors EEXIST if and only if the duplicate is noticed, ENOTDIR if and only if the parent is none, and otherwise a failure means that no block has room and the directory or the disk is full; every journaled write keeps the ownership rule |
| Ext2DirOps.DuplicateMissed | src/kernel/fs/ext2.c:667-744 | a directory that has the name and where it is not noticed |
| Ext2DirOps.RemoveEntry | src/kernel/fs/ext2.c:800-868 | success takes out the first entry with the name and nothing else, changes nothing of the inode but its times, and leaves the free totals; without I/O errors ENOENT if and only if no direct block has the name, and ENOTDIR if and only if the parent is none; a failure changes nothing or only the times were not stored |
| Ext2Readdir.ListsAll | src/kernel/fs/ext2.c:958-1044 | the listing from position 0 has every name and inode as often as the directory, in the order of the disk, except that empty names, "." and ".." are not in it |
| Ext2Readdir.Resumes | src/kernel/fs/ext2.c:1025-1025 | a listing that goes on at the d_off of an entry shows exactly what comes after that entry |
| Ext2Readdir.ListInBlock | src/kernel/fs/ext2.c:994-1038 | the entries that fit are taken, and the scan stops at the first that does not |
| Ext2Readdir.ListChunk | src/kernel/fs/ext2.c:979-1044 | nothing is lost or repeated between the chunk and the position it ends at, and it ends only at the end or where the next entry does not fit |
| Ext2Readdir.ReadDirectory | src/kernel/fs/ext2.c:958-1044 | the same for a directory inode; a failure leaves the position alone, and without I/O errors is EIO for a bad inode or ENOTDIR for one that is no directory |
| Ext2Readdir.ChunkDrains | src/kernel/fs/ext2.c:979-1044 | a chunk takes the longest run of next entries that fits its buffer |
| Ext2Readdir.DrainsAll | src/kernel/fs/ext2.c:958-1044 | buffers that can each hold the next entry, as many as there are entries, leave nothing to list |
| Ext2Readdir.LargeBuffersScan | src/kernel/fs/ext2.c:1010-1015 | buffers of 268 bytes can hold any next entry |
| Ext2Readdir.ListInChunks | src/kernel/fs/ext2.c:958-1044 | for every sequence of buffer sizes nothing is lost or repeated and every chunk takes all that fits; if each buffer can hold the next entry, as many calls as there are entries list every name and inode as often as the directory has it, but the empty name, "." and ".." never, in disk order |
| RingIndex.AndIsMod | include/kernel/ringbuf.h:22-39 | masking with a power of two less one is reduction modulo that power |
| RingIndex.AndBits | include/kernel/ringbuf.h:22-39 | a binary digit of the masked index is set if and only if it is set in both |
| RingIndex.MaskWord | include/kernel/ringbuf.h:33-39 | wrapping at 32 bits before the mask makes no difference |
| RingBuffer.ReadableWritable | include/kernel/ringbuf.h:33-39 | readable and writable make size - 1 for all indices |
| RingBuffer.RingBuf.EmptyFull | include/kernel/ringbuf.h:25-31 | empty if and only if no byte waits, full if and only if size - 1 do |
| RingBuffer.RingBuf.Push | include/kernel/ringbuf.h:41-52 | appends a byte; refused if and only if size - 1 bytes wait |
| RingBuffer.RingBuf.Pop | include/kernel/ringbuf.h:54-64 | takes the oldest byte; refused if and only if none waits |
| RingBuffer.RingBuf.Write | include/kernel/ringbuf.h:66-78 | appends as many bytes as fit, in order |
| RingBuffer.RingBuf.Read | include/kernel/ringbuf.h:80-91 | takes as many bytes as there are, in order |
| RingBuffer.RingBuf.Peek | include/kernel/ringbuf.h:93-98 | the oldest byte, which stays |
| RingBuffer.RingBuf.Discard | include/kernel/ringbuf.h:100-106 | drops the oldest bytes, as many as asked for or there are |
| RingBuffer.RingBuf.Clear | include/kernel/ringbuf.h:108-108 | nothing waits any more |
| RingSpsc.StoreKeeps | include/kernel/ringbuf.h:41-52 | the producer's store hits no slot that holds an unread byte, and keeps the invariant |
| RingSpsc.EveryInterleaving | include/kernel/ringbuf.h:33-108 | for every interleaving of the single loads and stores of push with pop, discard and clear the bytes taken are a prefix of the pushed ones, the counts are right, no unread slot is overwritten and no unwritten one is read |
| RingSpsc.RefusedOnlyIf | include/kernel/ringbuf.h:41-64 | in every run a push is refused if and only if size - 1 bytes wait, a pop if and only if none does |
| RingEffects.PushAdds | include/kernel/ringbuf.h:41-52 | whatever the consumer does between its steps, a push adds its byte as the next one unless size - 1 bytes wait when it looks, and then nothing |
| RingEffects.PopTakes | include/kernel/ringbuf.h:54-64 | whatever the producer does between its steps, a pop takes the oldest byte unless none waits when it looks |
| RingEffects.DiscardTakes | include/kernel/ringbuf.h:100-106 | a discard takes the oldest bytes of those that wait when it begins, as many as asked for or all |
| RingEffects.ClearTakes | include/kernel/ringbuf.h:108-108 | a clear takes everything pushed before it loaded the head |
| WaitQueue.UnlinkWalk | src/kernel/core/waitq.c:51-71 | the pointer walk takes the entry out of the list, if it is in it |
| WaitQueueSafe.UnlinkFinds | src/kernel/core/waitq.c:51-71 | the list is then the same without that entry, and no pointer outside it changes |
| WaitQueueSafe.PrepareKeepsIff | src/kernel/core/waitq.c:32-49 | entering the queue keeps the invariant of queue, chains and process states if and only if no wake_all has this entry still to visit |
| WaitQueueSafe.StepKeeps | src/kernel/core/waitq.c:32-93 | every other step of every waiter and waker keeps it, whatever the condition does |
| WaitQueueSafe.RunKeeps | include/kernel/waitq.h:27-57 | so does every run of wait_event, wait_event_locked and wake_all, spurious wakeups and conditions that turn false again included, in which no waiter enters the queue while its entry is on a chain |
| WaitQueueSafe.NeverStranded | include/kernel/waitq.h:27-57 | in every such run a waiter that sleeps past its re-check is on the queue or on the chain of a wake_all that will visit it |
| WaitQueueSafe.NoLostWakeup | include/kernel/waitq.h:27-57 | in every such run, once a wake_all has taken the queue since the condition became true, a waiter that sleeps past its re-check is one that a wake_all in progress is about to visit |
| WaitQueueSafe.AllWokenWhenReturned | src/kernel/core/waitq.c:73-93 | once every wake_all in progress has returned no waiter sleeps past its re-check |
| WaitQueueSafe.DisciplinedIsCareful | include/kernel/waitq.h:27-57 | if the condition holds before wake_all is called and stays true, no waiter ever enters the queue while its entry is on a chain |
| WaitQueueEffects.SleepsUntilWoken | include/kernel/waitq.h:27-57 | in every run a waiter asleep stays so until a wake_all stores its state or a spurious wakeup comes |
| WaitQueueEffects.ReturnsOnlyIfTrue | include/kernel/waitq.h:27-57 | in every run a waiter is on its way out if and only if it has looked at the condition and found it true |
| WaitQueueEffects.Returns | include/kernel/waitq.h:27-57 | once the condition is true, a waiter that is not asleep and can have the lock returns within five steps of its own |
| WaitQueueEffects.WakesAll | src/kernel/core/waitq.c:73-93 | a wake_all with nobody in between makes ready exactly those on the queue, empties it and returns |
| WaitQueueLost.ReturnedEarly | src/kernel/core/waitq.c:73-93 | with two wakers one wake_all can return while a waiter that the other took still sleeps |
| WaitQueueLost.LostForever | src/kernel/core/waitq.c:32-93 | a run in which a waiter enters the queue from the chain of a wake_all, and another is left asleep, on no list, with the condition true and every wake_all returned |
| WaitQueueLost.LostIsCareless | src/kernel/core/waitq.c:32-93 | that run is one that the theorems leave out |
| SchedInvariant.AtMostOne | src/kernel/core/sched.c:63-103 | a process is on at most one queue, that of its level and its owner |
| SchedInvariant.EnqueueKeeps | src/kernel/core/sched.c:63-78 | an unqueued process comes right after the head, and every queue stays one cycle |
| SchedInvariant.DequeueKeeps | src/kernel/core/sched.c:80-103 | exactly that process leaves its queue |
| SchedInvariant.DequeueMisses | src/kernel/core/sched.c:92-97 | a process that is not on the queue leaves everything as it is |
| SchedInvariant.RotateKeeps | src/kernel/core/sched.c:198-199 | the head moves on by one |
| SchedInvariant.StealKeeps | src/kernel/core/sched.c:174-184 | a steal keeps every queue one cycle |
| SchedInvariant.StealConserves | src/kernel/core/sched.c:174-184 | the set of queued processes is conserved, the victim keeps its head, the thief gets one process and no other queue changes |
| SchedInvariant.DemoteKeeps | src/kernel/core/sched.c:217-233 | a process of this CPU, queued or not, goes one level down and every queue stays one cycle |
| SchedInvariant.ForeignBreaks | src/kernel/core/sched.c:217-233 | demoting a process of another CPU puts it on a queue that is not its home, so no lists fit the queues any more |
| SchedInvariant.DemoteKeepsIff | src/kernel/core/sched.c:217-233 | demoting keeps the queues intact if and only if this CPU owns the process |
| SchedAgain.AddKeepsIff | src/kernel/core/sched.c:63-78 | adding a process keeps every queue intact and everyone queued if and only if it is on no queue or alone on the one it is added to |
| Scheduler.RunKeeps | src/kernel/core/sched.c:63-233 | over every run of allowed operations the queues stay intact |
| Scheduler.QueuedChanges | src/kernel/core/sched.c:63-233 | only adding and demoting put a process on a queue, and only removing takes one off |
| SchedulerLoops.RunQueues.AddToQueue | src/kernel/core/sched.c:63-78 | the pointer updates put the process right after the head of its queue, at a level cut to 0 to 3 |
| SchedulerLoops.RunQueues.RemoveFromQueue | src/kernel/core/sched.c:80-103 | the walk ends and takes out exactly the process, or nothing if it is not on this CPU |
| SchedulerLoops.RunQueues.RotateHead | src/kernel/core/sched.c:198-199 | the head moves on by one |
| SchedulerLoops.RunQueues.TryStealWork | src/kernel/core/sched.c:156-191 | at most once per interval the process after the head of the first queue with one to spare is stolen; nothing if and only if no other CPU has one |
| SchedulerLoops.RunQueues.DemoteQuantumExhausted | src/kernel/core/sched.c:217-233 | a process of this CPU goes one level down, or stays on the lowest, and is queued afterwards, and no other process comes or goes; any other call changes nothing |
| SchedulerLoops.DemotingStolenBreaks | src/kernel/core/sched.c:217-233 | a state with intact queues that has none after demoting a stolen process |
| UserMemory.AddressSpace.CopyOut | src/kernel/core/exec.c:44-71 | on success the bytes are stored, across pages; in any case nothing outside the range changes; it fails only if a page is not mapped or a frame cannot be reached |
| ExecStack.PlaceOk | src/kernel/core/exec.c:129-139 | the areas follow each other without overlap from a multiple of 16 up to the stack top, with room below for the call frame |
| ExecStack.PlaceSnug | src/kernel/core/exec.c:129-139 | they start at the last multiple of 16 from which everything fits |
| ExecStack.PutVector | src/kernel/core/exec.c:145-158 | the strings, the pointers to them and the null pointer are stored after what was there |
| ExecStack.PutVectors | src/kernel/core/exec.c:141-173 | argc and both vectors with their strings are stored |
| ExecStack.PutCallFrame | src/kernel/core/exec.c:197-211 | the call frame is stored and the image above it stays |
| ExecStack.SetupStack | src/kernel/core/exec.c:110-218 | on success the whole image is in memory and the stack pointer is a multiple of 16, at argc or at the call frame below it; a program that reads from there on finds argc, its arguments and environment and, if it is dynamic, for the tags 3, 4, 5, 6, 7 and 9 the program headers, 32, their number, 4096, the interpreter base and the entry, and no other tag; nothing outside the image changes on any path, and it fails only if one of its pages is not mapped or a frame cannot be reached |
| ExecStack.RoundTrip | src/kernel/core/exec.c:110-218 | a reader that follows the pointers through the paged memory recovers exactly argc, the strings, the null pointers and auxv |
| Cpio.ParseHex8 | src/kernel/fs/cpio_parse.c:61-74 | the value of the eight digits, below 2^32 |
| Cpio.HexRoundTrip | src/kernel/fs/cpio_parse.c:61-74 | a number written in digits is read back |
| Cpio.CaseBlind | src/kernel/fs/cpio_parse.c:61-74 | digits in upper case have the same value |
| Cpio.NoDigit | src/kernel/fs/cpio_parse.c:61-74 | any other character counts as 0 |
| Cpio.LookAdvances | src/kernel/fs/cpio_parse.c:87-186 | on any input the cursor moves on by more than a header, stays within the archive and stays a multiple of 4 |
| Cpio.BuildPath | src/kernel/fs/cpio_parse.c:76-189 | the path loop computes the path of the name and never exceeds its buffer |
| Cpio.NamePath | src/kernel/fs/cpio_parse.c:149-158 | for any name the path is a slash and the name without its first character and the slashes after that |
| Cpio.LookAt | src/kernel/fs/cpio_parse.c:76-189 | one turn of the loop decides as Look says, on any input |
| Cpio.Load | src/kernel/fs/cpio_parse.c:76-189 | stages exactly what Parse says, counts the files that opened, and ends on any input |
| Cpio.LookItem | src/kernel/fs/cpio_parse.c:76-189 | a well-formed directory or file is staged with its path, permissions and content; the root, named "." or "./", and anything of another type is passed over |
| Cpio.RoundTrip | src/kernel/fs/cpio_parse.c:76-189 | every archive of members with "./" names, the root among them, is staged item by item, whatever the other header fields and the bytes after the trailer are |
| Cpio.PackRoundTrip | src/kernel/fs/cpio_parse.c:76-189 | packing a list of items and parsing it gives the list back |
| ElfLoader.Loader.FillPage | src/kernel/fs/elf_loader.c:146-174 | if no read comes back empty before the end of the file, the page holds zeroes with what the file has of the bytes spliced in, however the reads are cut |
| ElfLoader.PageIs | src/kernel/fs/elf_loader.c:121-174 | zeroes with what the file has of the right slice are the page of the segment, also where the file ends too early |
| ElfLoader.Loader.MapPages | src/kernel/fs/elf_loader.c:138-183 | the page loop: every page of the segment gets a frame of its own, so that every address is mapped, with its file bytes, and zeroes where the segment or the file has none; it stops early only if a frame or a mapping is refused |
| ElfLoader.Loader.MapSegment | src/kernel/fs/elf_loader.c:103-184 | every address from the start of the segment to its end is mapped and, if no read came back empty, has the byte of the file as far as p_filesz and the file go, and 0 from there on; a page without such an address keeps its frame and contents; EFAULT and EOVERFLOW exactly for segments outside user space or past the end of the address space, and any other failure only if a seek, a frame or a mapping is refused |
| ElfLoader.Loader.LoadSegments | src/kernel/fs/elf_loader.c:217-238 | every covered page holds what the last segment that covers it puts there, no other page changes, and brk is the largest page-rounded segment end |
| ElfLoader.DisjointIntact | src/kernel/fs/elf_loader.c:217-238 | every address of a segment that shares no page with another one has its file byte, or 0 past p_filesz or the end of the file |
| ElfLoader.ElsewhereKept | src/kernel/fs/elf_loader.c:217-238 | a page without an address of any segment is as it was |
| Ramfs.OneParent | src/kernel/fs/ramfs.c:82-109 | an inode is in at most one child list |
| RamfsTree.MakeKeeps | src/kernel/fs/ramfs.c:211-266 | create and mkdir keep the child lists intact |
| RamfsTree.UnlinkKeeps | src/kernel/fs/ramfs_ops.c:108-126 | so does unlink |
| RamfsTree.RmDirKeeps | src/kernel/fs/ramfs_ops.c:128-148 | so does rmdir |
| RamfsTree.RenameKeeps | src/kernel/fs/ramfs_ops.c:166-184 | so does rename |
| RamfsLinks.RenameLinks | src/kernel/fs/ramfs_ops.c:166-184 | a rename keeps every directory's links at two and one for each subdirectory if and only if it does not move a directory to another directory |
| RamfsLinks.StepLinks | src/kernel/fs/ramfs_ops.c:104-209 | the same over all operations |
| RamfsRelease.CloseKeeps | src/kernel/fs/vfs_fd.c:221-241 | the last close keeps the child lists intact if and only if it releases neither the root nor an inode that another directory lists |
| RamfsRelease.UnlinkFiles | src/kernel/fs/ramfs_ops.c:108-126 | every listed file has a link, and unlink keeps it so |
| RamfsLinks.StepKeeps | src/kernel/fs/ramfs_ops.c:104-209 | an operation keeps the child lists intact if and only if it is no close that releases an inode still in the tree |
| RamfsLinks.RunKeeps | src/kernel/fs/ramfs_ops.c:104-209 | over every run from the initial table without such a close the child lists are intact and every listed file has a link |
| RamfsLinks.RunLinks | src/kernel/fs/ramfs_ops.c:104-209 | as long as no directory has moved to another one there is no such close, and the link counts are right |
| RamfsNames.LookupResolves | src/kernel/fs/ramfs.c:67-80 | lookup finds the first entry with the name |
| RamfsNames.MakeNames | src/kernel/fs/ramfs.c:211-266 | succeeds if and only if there is room, a free inode and, for a directory, no such name; adds exactly one entry, for a free inode that gets the name cut to 63 bytes, the nine permission bits, one link or two, and the parent; the parent gains the entry and, for a directory, a link; no other inode changes |
| RamfsNames.InitTable | src/kernel/fs/ramfs.c:199-208 | at boot the root, of mode 0755 with two links, is the only inode in use |
| RamfsNames.UnlinkNames | src/kernel/fs/ramfs_ops.c:108-126 | succeeds if and only if the name is that of a file; takes out exactly that entry, and frees the inode if and only if it was the last link and nobody has it open |
| RamfsNames.RmDirNames | src/kernel/fs/ramfs_ops.c:128-148 | succeeds if and only if the name is that of an empty directory; takes out exactly that entry and frees the inode |
| RamfsNames.RenameNames | src/kernel/fs/ramfs_ops.c:166-184 | the entry moves to the end of the target directory under its new name, or, if that has no room, to the end of its own, under the new name all the same |
| RamfsNames.RenameResolves | src/kernel/fs/ramfs_ops.c:166-184 | the new name leads to the moved inode if and only if no other entry of the target had it; every other name leads where it did |
| RamfsFields.UnlinkFields | src/kernel/fs/ramfs_ops.c:108-126 | an unlinked file has one link less, or is all zero again if that was its last and nobody has it open; no other field of any inode changes but the list of the parent |
| RamfsFields.RmDirFields | src/kernel/fs/ramfs_ops.c:128-148 | a removed directory is all zero again and its parent has one link less; no other field changes but that list |
| RamfsFields.RenameFields | src/kernel/fs/ramfs_ops.c:166-184 | a rename, also one that fails for want of room, changes the name, cut to 63 bytes, and the parent of the inode, and no other field but lists |
| RamfsRoot.MakeRooted | src/kernel/fs/ramfs.c:211-266 | create and mkdir keep the inodes one tree: every directory is listed and the parents of everything listed lead to the root |
| RamfsRoot.UnlinkRooted | src/kernel/fs/ramfs_ops.c:108-126 | so does unlink |
| RamfsRoot.RmDirRooted | src/kernel/fs/ramfs_ops.c:128-148 | so does rmdir |
| RamfsRoot.RenameRooted | src/kernel/fs/ramfs_ops.c:166-184 | a rename keeps them one tree if and only if it does not move an inode to a directory at or below it that has room |
| RamfsRoot.StepRooted | src/kernel/fs/ramfs_ops.c:104-209 | the same over all operations |
| RamfsRoot.RunRooted | src/kernel/fs/vfs_path.c:134-178 | over every run without such a rename and without a close that releases an inode in the tree, they are one tree |
| RamfsDistinct.MakeDistinct | src/kernel/fs/ramfs.c:211-266 | creating keeps the names of every directory distinct if and only if it fails or the name as it is stored is new |
| RamfsDistinct.RenameDistinct | src/kernel/fs/ramfs_ops.c:166-184 | renaming does if and only if nothing is renamed or no other entry, where it ends up, has the name as it is stored |
| RamfsDistinct.RunDistinct | src/kernel/fs/ramfs_ops.c:104-209 | over every run that stores only new names all names are distinct |
| RamfsWitness.MoveIntoItself | src/kernel/fs/ramfs_ops.c:166-184 | a run of two operations after which the inodes are no tree: a directory is made and renamed into itself |
| RamfsWitness.MadeTwice | src/kernel/fs/ramfs.c:211-266 | creating a file of any name twice, or a directory of any name of 64 bytes or more, leaves two entries of one name |
| RamfsWitness.ReleasedListed | src/kernel/fs/vfs_fd.c:221-241 | a run after which the root lists a free inode: moved directories took the links of a directory, and closing it released it |
| RamfsOpen.RmDirCounted | src/kernel/fs/ramfs_ops.c:128-148 | removing a directory keeps every inode's count that of its open files, all of them in use, if and only if nobody has it open |
| RamfsOpen.StepCounted | src/kernel/fs/ramfs.c:35-63 | an operation does if and only if it does not remove a directory that somebody has open |
| RamfsOpen.RunCounted | src/kernel/fs/ramfs.c:11-12 | over every run without that the counts are right and no inode is freed while it is open |
| RamfsWitness.RemovedOpen | src/kernel/fs/ramfs_ops.c:128-148 | a run in which an open directory is removed: its inode is reused, and the close makes the count of the new file wrap around |
| RamfsLoops.ShiftOut | src/kernel/fs/ramfs.c:94-109 | the children behind the one removed move up by one |
| RamfsLoops.RamFs.LookupChild | src/kernel/fs/ramfs.c:67-80 | the scan computes the lookup |
| RamfsLoops.RamFs.AllocInode | src/kernel/fs/ramfs.c:41-50 | the first free entry of the table, 0 if none |
| RamfsLoops.RamFs.RemoveChild | src/kernel/fs/ramfs.c:94-109 | the child is taken off the list in place |
| RamfsLoops.RamFs.AddChild | src/kernel/fs/ramfs.c:82-92 | an inode that no directory lists becomes the last entry of the parent and no other directory's entries change, if and only if the parent is a directory with room, and otherwise nothing changes; the child lists stay intact if the inode is in use |
| RamfsLoops.RamFs.Create | src/kernel/fs/ramfs.c:211-266 | the table changes in place as Make says and stays intact |
| RamfsLoops.RamFs.UnlinkFile | src/kernel/fs/ramfs_ops.c:108-126 | as Unlink says |
| RamfsLoops.RamFs.RemoveDir | src/kernel/fs/ramfs_ops.c:128-148 | as RmDir says |
| RamfsLoops.RamFs.RenameEntry | src/kernel/fs/ramfs_ops.c:166-184 | as Rename says |
| RamfsLoops.RamFs.CloseInode | src/kernel/fs/vfs_fd.c:221-241 | as Close says; the child lists stay intact if and only if it releases no inode that they mention |

## Left out

- A second call of `journal_init`, which the boot does not make.
- Crash atomicity of ext2 operations that make several journaled writes: each write is a transaction of its own, so a crash leaves the state after some of them (`Ext2Crash.CrashInHistory`); what holds in each of these states is stated.
- `ext2_mount`, `ext2_inode_adjust_links`, `ext2_stat`, `ext2_inode_dtype` and the stubs of the ext2 operations table: single-branch code.
- Journal.TransactionLog.Begin: models the call once the slot is free; waiting for the slot is left out.
- Journal.BlockDevice.Flush: a flush that fails is left out, because the code does not look at its result.
- Ext2Volume.Volume.Sync: of what the superblock and the descriptors hold, only the free counts are modelled, as values and not as bytes; the used-directories count is left out.
- Ext2Crash.CrashInHistory: on a device that keeps the order of writes, for a run that disturbs no slot and overwrites no target of a header left by a failed clear.
- Ext2Crash.BootsInHistory: says nothing of the superblock itself, which does not go through the journal.
- Ext2Owner.Owned: an indirect, double indirect or direct pointer is a block number, so fast symbolic links are excluded; triple indirect blocks, which the code never follows, hold no references.
- Ext2DirOps.LookupIn: requires a directory of whole tiled blocks (`DirOk`); a malformed directory is not modelled.
- Ext2DirOps.Lookup: the same.
- Ext2DirOps.AddInBlocks: the same.
- Ext2DirOps.AddInNewBlock: the same.
- Ext2DirOps.AddEntry: the same.
- Ext2DirOps.RemoveEntry: the same.
- Ext2Readdir.ListChunk: the same, and the position to go on from is that of a record.
- Ext2Readdir.ReadDirectory: the same.
- Ext2Readdir.ListInChunks: the same.
- Ext2Readdir.ListInBlock: the dirent is its inode, offset, name and size; its byte layout in the user's buffer is left out.
- WaitQueueSafe.NoLostWakeup: leaves out the runs in which a waiter enters the queue while its entry is on a chain; `PrepareKeepsIff` says what such a step does. schedule() returns to a waiter only when it is not blocked; entries persist, as the lifetime of stack memory is not modelled.
- Scheduler.RunKeeps: process states, the quantum and the choice of the next process are left out; the code keeps no invariant about them.
- SchedulerLoops.RunQueues.DemoteQuantumExhausted: requires that this CPU owns the process, which is exactly when demoting it breaks no queue (`SchedInvariant.DemoteKeepsIff`).
- ExecStack.SetupStack: copying argv and envp from user space and the rest of sys_execve are left out; no string of argv or envp is a null pointer.
- Cpio.Load: whether a file can be opened is a parameter; writing the contents through the VFS and creating parent directories are left out. Bytes past the end of the archive count as zero.
- ElfLoader.Loader.MapSegment: a read that fails before the end of the file passes unnoticed in the code; then (`short`) the contents of the segment's pages are open.
- ELF header validation, the interpreter and the process context (`validate_elf_header`, `load_elf_process`).
- ramfs file data (read, write, truncate), listing and attributes: they would add only easy members.
- Path resolution in the VFS, the heap, paging and the frame allocator: page maps, fresh frames and failed allocations are parameters or free choices.
