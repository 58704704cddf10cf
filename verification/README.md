# Verified models of the kernel's storage and memory cores

A Dafny 4.11 model of the parts of a Rust kernel that carry state across many steps, with proofs of
what those parts are for:

- **ext2**: the volume (bitmaps, counters, inode table, indirect-block trees), files and directories,
  the directory operations of the VFS, and the repair that runs at every mount. The device is a
  sequence of blocks; every block write is one step, and the image after each step is recorded, so
  a crash is "any recorded image".
- **Memory**: the buddy allocator with its intrusive free lists and bitmap, and the slab allocator
  on top of it.
- **Three small cores**: the lock-free key ring as interleaved atomic steps, the `linux_dirent64`
  packer against the parser, and the civil-date arithmetic.

`dafny verify dfyconfig.toml` checks everything. Structs whose methods change them are classes
(`Volume.Ext2Core`, `Walk.Marks`, `Buddy.BuddyAllocator`, `Slab.SlabCache`, `Heap.SlabAllocator`);
loops over buffers are methods with invariants; pure code is functions.

## What is proved, by component

**ext2 consistency.** `Consistency.Inv` says of an image and a set of inodes: the metadata and every
inode of the set are marked used; every block of an inode's tree is a data block, marked used, and
sits at one place in one tree only; every directory block is a clean chain of records naming inodes
of the set. `Consistency.DiskInv` is the same with the trees read from the inode table itself. The
set always holds the root. `Counters.CountersOk` says that group and superblock counters equal the
bitmaps. `Operations.Sound` adds that each inode has one name.

**Crash steps.** Each of create, mkdir, symlink, unlink, rmdir and write keeps `Sound` and leaves every
inode other than the one it works on byte for byte as it was, both at *every* image it goes through;
once done, link counts and directory counts have moved by exactly what the operation calls for. A
crash shows the directory either as before or as after (`Session.CrashSince`,
`Writes.Survives`), and a file at each byte as before or as after. `Crash.Serve` ties each request by
path to the inode its path names and to the effect, answer and images of that request; `Crash.Run`
lifts this to any sequence of requests.

**Crash, then mount.** From any consistent image, the mount repair never loses a reachable file, not
even half-way, and when it succeeds every used bit belongs to something reachable or reserved, every
counter is exact, and a second repair frees nothing (`Recovery`). `Crash.ServeRounds` strings any
number of runs, power cuts and mounts together, and `Smallest` shows a volume all this applies to.

**Buddy.** Free blocks and handed-out blocks never overlap and together stay exactly the pages that
were added, over any run (`BuddyRun.Run`). Nothing mergeable ever stays unmerged if and only if every
free finds its buddies within the search limit, as it does after boot while lists are short; then a
request is refused only when no aligned stretch of that size is free.

**Slab.** No two live allocations share a byte, each is aligned as asked, and in every cache the
objects are exactly the slots of its pages, used plus free. Every block taken from the buddy allocator
has one owner, so none is leaked.

**Key ring.** Every interleaving of the atomic steps is linearizable to a FIFO queue of capacity - 1
elements, and no call begun is lost (`Ring.EveryRunIsAQueue`).

## Where the code falls short of a property

Each of these has a lemma or an exact condition in the table below.

- *Truncation is not crash-safe.* `truncate_to_zero` clears bitmap bits before the emptied record
  reaches the disk. The image before its last write is consistent if and only if the file had no
  blocks (`Removal.TruncateToZero`), and the mount repair does not mend it (`Crash.CutTruncation`).
- *Names over 255 bytes* are stored with their length modulo 256; a name survives if and only if it
  has at most 255 bytes (`DirBlock.NameSurvivesUpTo255`), and a longer one can duplicate a name
  (`Operations.LongNameClashes`). The system-call layer reads at most 255.
- *Block indexes are 32 bits wide*, so a write at 2^32 blocks or beyond lands at the wrapped offset
  and is lost at its own (`Content.FarWriteMisses`, `Content.FarByteHitsTheFirst`).
- *Only regular files store sizes beyond 32 bits* (`Inode.SizeSurvives`); a directory that grows to
  4 GiB forgets how long it is and lists only its front (`Directories.GrowthCountsExactly`,
  `Directories.AddDirEntry`).
- *Freeing twice is not noticed*: the bit stays clear and the counters go wrong by one
  (`Volume.Ext2Core.FreeBlock`, `Volume.Ext2Core.FreeInode`).
- *The mount repair does not recount directories*: the directory count of every group stays as a crash
  left it (`Recovery.MountAndRepair`).
- *Coalescing gives up* on a buddy more than 4096 places down its free list, and above 512 MiB
  (`Buddy.BuddyAllocator.Deallocate` has the exact condition; `Buddy.GivesUp` and
  `Buddy.HighMemory` show a request refused for it).
- *Regions that touch are never merged* (`Regions.TouchingRegions`; `Regions.MaximalExactly` says
  when that matters), and a region that does not start on a page boundary is cut into unaligned
  blocks (`Regions.CutIsAligned`).
- *Requests over 256 MiB* make the slab allocator index past the free lists instead of returning null
  (`Heap.SlabAllocator.Allocate`: a panic if and only if the size or alignment exceeds 2^28).
- *A directory listing cannot tell "end" from "record too large for the buffer"*: both return 0
  (`Getdents.SameAnswer`), unless the buffer has 280 bytes (`Getdents.Ended`).

## Model

| member | source | states |
|---|---|---|
| `Civil.NextDayIsOneMore` | hal/src/rtc.rs:187-196 | the next calendar day, in any year including negative ones, gets exactly the next number |
| `Civil.OrderPreservedAndReflected` | hal/src/rtc.rs:187-196 | one valid date is earlier than another if and only if its number is smaller, so no two dates share a number |
| `Civil.EveryDayHasADate` | hal/src/rtc.rs:187-196 | 1970-01-01 is day 0, and every integer is the number of some valid date |
| `Civil.LeapRule` | hal/src/rtc.rs:187-196 | the year lengths hidden in the era arithmetic are the Gregorian ones: 366 days exactly in leap years |
| `Civil.EraIsFloor` | hal/src/rtc.rs:187-196 | the truncating division with its -399 correction computes the floor, so the formula is one formula for all years |
| `Ring.PushStepKeepsInv` | kernel/src/keyboard_buffer.rs:31-42 | each atomic step of `push` keeps the ring holding the queue of what was accepted and not popped; the call returns at most once, accepted with room or dropped when full, and until then its element is not lost |
| `Ring.PopStepKeepsInv` | kernel/src/keyboard_buffer.rs:49-63 | each atomic step of `pop` keeps it too; the call returns at most once, with the head of the queue or with nothing when the queue is empty |
| `Ring.RunKeepsInv` | kernel/src/keyboard_buffer.rs:103-130 | every state of every interleaving, for any capacity and element type (both rings), satisfies the invariant and accounts for every call begun |
| `Ring.EveryRunIsAQueue` | kernel/src/keyboard_buffer.rs:31-63 | every interleaving is linearizable: the calls, in the order they return, get the answers of a FIFO queue of capacity - 1 elements; the pushes returned are those begun, in order, but for the one in flight; every pop begun has returned once or is in flight; and the ring holds that queue |
| `Ring.PoppedIsAPrefixOfAccepted` | kernel/src/keyboard_buffer.rs:31-63 | in every interleaving the values popped are the accepted pushes in order, none lost or repeated, and the rest wait in their slots |
| `Ring.NoSlotIsWrittenWhileRead` | kernel/src/keyboard_buffer.rs:36-41 | the slot being written is never the slot being read |
| `Ring.DroppedOnlyWhenFull` | kernel/src/keyboard_buffer.rs:33-35 | a push is dropped if and only if capacity - 1 elements were waiting when it loaded `read` |
| `Ring.EmptyPopOnlyWhenEmpty` | kernel/src/keyboard_buffer.rs:50-55 | a pop returns nothing if and only if nothing was waiting when it loaded `write` |
| `Ring.EverySideCanMove` | kernel/src/keyboard_buffer.rs:31-63 | neither side ever waits for the other: in every reachable state both have an enabled step |
| `Volume.FindFirstFreeBit` | ext2/src/bitmap.rs:24-33 | the result is the least clear bit below the bound; none if and only if all are set |
| `Volume.CountFreeBits` | ext2/src/bitmap.rs:59-69 | the count is the number of clear bits below the bound |
| `Bytes.SetBit` | ext2/src/bitmap.rs:36-39 | afterwards exactly the chosen bit is set in addition, at every bit position of the whole bitmap |
| `Bytes.ClearBit` | ext2/src/bitmap.rs:42-45 | afterwards exactly the chosen bit is clear in addition |
| `Bytes.UnIsLittleEndian` | ext2/src/inode.rs:36-106 | a field read from bytes is the sum of its bytes, byte k weighing 256 to the k |
| `Bytes.LeIsLittleEndian` | ext2/src/inode.rs:36-106 | byte k of a field written is digit k of the value to base 256 |
| `Bytes.BitIsDigit` | ext2/src/bitmap.rs:36-45 | bit k of a bitmap byte is its binary digit k |
| `Inode.FieldsOnDisk` | ext2/src/inode.rs:36-106 | mode, links, size and the fifteen pointers of a record, byte by byte |
| `Inode.SizeSurvives` | ext2/src/inode.rs:81-96 | a stored size reads back as itself if and only if it is below 2^32 or the inode is a regular file |
| `Inode.SetIBlockEffect` | ext2/src/inode.rs:98-106 | writing one pointer slot changes that slot and neither mode, size, link count nor any other slot |
| `Inode.ShapeUntouched` | ext2/src/inode.rs:36-75 | the bookkeeping fields share no byte with mode, size or pointers |
| `Inode.SetLinksCountEffect` | ext2/src/inode.rs:44-50 | the count reads back modulo 2^16, and mode, size and pointers stay |
| `Volume.Ext2Core.AdjustBgdCounts` | ext2/src/volume.rs:117-142 | moves one group's free-block, free-inode and directory counts by the deltas and changes no other descriptor, bitmap, record or data block |
| `Volume.Ext2Core.AdjustSbCounts` | ext2/src/volume.rs:149-163 | the same for the superblock's counters |
| `Volume.Ext2Core.AllocBlock` | ext2/src/volume.rs:182-202 | hands out a data block that was clear, now marked and zeroed, touching nothing else; with exact counters it is the least free one, and none only if every block is used; exact counters stay exact; every image on the way keeps all content |
| `Volume.Ext2Core.FreeBlock` | ext2/src/volume.rs:204-220 | clears exactly that bit; exact counters stay exact if and only if the bit was set, so freeing twice miscounts; a block outside the volume is refused and nothing is written |
| `Volume.Ext2Core.AllocInode` | ext2/src/volume.rs:225-242 | hands out an unmarked inode, now marked; with exact counters it is the least free one, and none only if all are used; exact counters stay exact; its group counts one directory more if and only if it is for one |
| `Volume.Ext2Core.FreeInode` | ext2/src/volume.rs:244-257 | clears exactly that inode's bit; exact counters stay exact if and only if it was set; its group counts one directory fewer if and only if told so; out of range is refused untouched |
| `Volume.Ext2Core.ReadInode` | ext2/src/volume.rs:264-302 | returns that inode's record for every number in range, an error otherwise |
| `Volume.Ext2Core.WriteInode` | ext2/src/volume.rs:307-312 | after one block write that record reads back and every other record, bit and data block is unchanged |
| `Geometry.Superblock.BlockHasPlace` | ext2/src/volume.rs:182-220 | every block number has a group and bit inside the group's valid range, and they lead back to it |
| `Geometry.Superblock.MetadataPlaces` | ext2/src/bgd.rs:43-48 | the superblock is at byte 1024 of the device, and 32-byte descriptors follow one another from the block after it |
| `Geometry.Superblock.RecordPlace` | ext2/src/volume.rs:264-290 | a group's inode records follow one another from the start of its table |
| `Geometry.Superblock.TableSlotsDisjoint` | ext2/src/volume.rs:264-290 | inodes kept in one block of the inode table occupy disjoint bytes of it |
| `Tree.LeafPathOfIndex` | ext2/src/volume.rs:321-373 | below capacity each file index has a path of the right depth through direct, single, double or triple slots, and the path gives the index back |
| `Tree.IndexOfLeafPath` | ext2/src/volume.rs:321-373 | conversely every leaf position of the tree is the path of exactly one index |
| `Files.BlockForIndex` | ext2/src/volume.rs:321-373 | the lookup returns the block at the end of the index's path, none for a hole; it fails only on a pointer outside the volume |
| `Files.GetOrAllocPtr` | ext2/src/volume.rs:390-401 | after it the entry is filled; it fails only when every block is in use; nothing off the path changes, and at every image the tree is the old one or grown towards the target, the volume consistent and the listing unchanged |
| `Files.BlockForIndexAlloc` | ext2/src/volume.rs:407-470 | the index becomes mapped, every other index keeps its block; it fails for lack of space only when every block is in use, and an index past capacity is refused untouched; at every image the tree is the old one or grown by zeroed blocks and the volume is consistent |
| `Consistency.LinkEntry` | ext2/src/volume.rs:390-401 | linking a fresh zeroed block under a pointer block keeps one-owner-per-block for all files |
| `Consistency.LeafWriteInv` | ext2/src/volume.rs:505-536 | writing a file's data block disturbs no tree and no other file |
| `Content.DistinctIndicesDistinctBlocks` | ext2/src/volume.rs:321-373 | in a consistent volume two (file, index) pairs never map to one block |
| `Content.OtherIndicesUnchanged` | ext2/src/volume.rs:407-470 | growing the tree towards one index leaves every other index's block alone |
| `Content.IndexWraps` | ext2/src/volume.rs:480-512 | the 32-bit index equals the true quotient if and only if it is below 2^32; beyond, positions 2^32 blocks apart get one index |
| `Content.FarWriteMisses` | ext2/src/volume.rs:505-536 | what is written reads back at its own offset if and only if the offset is below 2^32 blocks, for any data with a byte that is not zero |
| `Content.FarByteHitsTheFirst` | ext2/src/volume.rs:505-536 | one byte written at block 2^32 lands in the first byte of the file, and reads as zero where it was meant to go |
| `Content.ReadFileRange` | ext2/src/volume.rs:475-497 | every byte of the buffer is the file's byte at that position, zero in holes; succeeds whenever the tree is inside the volume |
| `Content.WriteFileRange` | ext2/src/volume.rs:505-536 | at every offset, beyond capacity and beyond 2^32 blocks too: the bytes that got through, all of them exactly on success, stand where the wrapped offset puts them and every other byte is the old one; on success size is the maximum of old size and end and the record is persisted last; no-space only when every block is in use; too-large only past capacity, and always, with nothing written, for a range that starts there; at every image each byte of the file is the old or the new one |
| `Content.PartSeen` | ext2/src/volume.rs:505-536 | a crash image in the middle of a write, read through the pointers of the record on disk, shows at each position the byte from before the write or the one being written there |
| `Writes.WriteThenRead` | ext2/src/volume.rs:475-536 | for any write and any read at any offsets, the read returns the written bytes where the two meet, after both offsets wrap, and the old bytes or zeros elsewhere |
| `DirBlock.ScanIsListing` | ext2/src/dirent.rs:57-72 | on a well-formed block the byte-level scan is the list of its live records |
| `DirBlock.ScanGivesAll` | ext2/src/dir.rs:59-81 | on any bytes the scan gives, once each and from left to right, exactly the records the chain of lengths comes to that are in use, whole inside the block, and named by at least one byte but not "." or ".."; each with the inode, type and name bytes found there |
| `DirBlock.NameSurvivesUpTo255` | ext2/src/dirent.rs:34-40 | the stored name is the given name if and only if it has at most 255 bytes |
| `DirBlock.LongNameIsCutShort` | ext2/src/dirent.rs:34-40 | a 300-byte name is stored as its first 44 bytes |
| `DirBlock.InsertEffect` | ext2/src/dir.rs:101-122 | splitting a record's slack inserts exactly one entry into the block's listing and keeps the block well-formed |
| `DirBlock.InsertKeepsRecords` | ext2/src/dir.rs:101-122 | an insert keeps every record in use, "." and ".." included, at its place with its inode, type and name |
| `DirBlock.RemoveEffect` | ext2/src/dir.rs:158-173 | removing a record removes exactly that entry, whether it is absorbed by its predecessor or marked unused |
| `DirBlock.RemoveKeepsRecords` | ext2/src/dir.rs:158-173 | a removal keeps every other record in use, "." and ".." included, at its place with its inode, type and name |
| `DirBlock.DotBlockListsNothing` | kernel/src/fs/ext2.rs:944-987 | a new directory's block with "." and ".." is well-formed and lists nothing |
| `DirBlock.DotBlockRecords` | kernel/src/fs/ext2.rs:966-971 | a new directory's block is two records: one of 12 bytes named "." for the directory, and one for the rest of the block named ".." for its parent |
| `Directories.ReadDirEntries` | ext2/src/dir.rs:53-84 | an entry is returned if and only if some block of the directory has its record, in use and not named "" or "." or ".."; the blocks come in order; fails only on a pointer outside the volume |
| `Directories.AddDirEntry` | ext2/src/dir.rs:91-137 | if and only if some record has room, one block write puts the entry there and the size stays; otherwise it is appended in a new block; refused as too large if and only if there is no room and the last block is taken, for lack of space only when every block is in use; past 4 GiB the listing is exactly cut to the wrapped number of blocks; all images before the last show the old listing; on failure nothing is listed differently |
| `Directories.GrowthCountsExactly` | ext2/src/dir.rs:124-136 | a directory extended by a block counts that block if and only if its new size is below 4 GiB |
| `Directories.RemoveDirEntry` | ext2/src/dir.rs:145-179 | removes the first entry of that name in one block write; not found if and only if no entry has it |
| `Symlink.ReadSymlinkTarget` | ext2/src/dir.rs:224-233 | returns the target, inline or from blocks; inline targets cannot fail |
| `Symlink.WriteSymlinkTarget` | ext2/src/dir.rs:245-260 | the target read back is the target written; the record has block pointers if and only if the target has 60 bytes or more, and then every block of the target is mapped; under 60 bytes nothing is allocated and exactly one block is written; the only failure is lack of space, and then every block is in use |
| `Symlink.InlineTarget` | ext2/src/dir.rs:245-252 | an inline link owns no block and its target reads back |
| `Symlink.TargetsFit` | ext2/src/volume.rs:407-470 | every target below 4 GiB fits in a file |
| `Walk.VisitInodeBlocks` | ext2/src/volume.rs:555-608 | visits every block of the tree, pointer blocks included, each exactly once; it fails only when marking and only on a pointer outside the volume |
| `Walk.VisitTargets` | ext2/src/volume.rs:614-625 | visits everything below one pointer block, once |
| `Walk.FreeAllBlocks` | kernel/src/fs/ext2.rs:446-469 | clears the bits of exactly the file's blocks although pointer blocks are read after being freed; counters stay exact; the record is left empty |
| `Repair.ReconcileFreeCounts` | ext2/src/repair.rs:79-121 | from any counters whatever, afterwards all are exact and nothing else changed; group drift is reported if and only if some group was wrong, superblock drift if and only if the superblock was; with neither, nothing is written |
| `Walk.MarkBit` | ext2/src/repair.rs:409-414 | sets that bit alone and ignores bits past the end |
| `Reach.MarkInodeBit` | ext2/src/repair.rs:428-432 | sets that inode's bit alone and ignores inode 0 and inodes past the end |
| `Reach.MarkReachable` | ext2/src/repair.rs:299-327 | marks only inodes reachable within the depth from the start and is closed under directory entries, on cyclic graphs too; it fails only for a chain of 65 distinct inodes, none marked before, or an unreadable reachable inode; writes nothing |
| `Orphans.ScanIsExact` | ext2/src/repair.rs:299-327 | after the walk from the root, marked means reachable from the root, both ways |
| `Orphans.BlocksAreExact` | ext2/src/repair.rs:141-215 | a block is marked in use if and only if it is reserved or in the tree of a reachable inode |
| `Orphans.ReserveMetadata` | ext2/src/repair.rs:141-215 | exactly the boot, superblock, descriptor, bitmap and table blocks and the head of every group are reserved |
| `Orphans.SweepBits` | ext2/src/repair.rs:216-290 | keeps a bit if and only if it was set and wanted; the count is the number of bits dropped |
| `Orphans.ReclaimOrphans` | ext2/src/repair.rs:141-290 | new bitmaps are the old ones intersected with reachable-or-reserved; freed counts exact; any error leaves the device untouched; no image on the way clears anything in use |
| `Recovery.LivePart` | ext2/src/repair.rs:141-290 | the reachable inodes of a consistent volume are themselves a consistent volume |
| `Recovery.ReclaimingIsSafe` | ext2/src/repair.rs:216-290 | at every step of the sweep the reachable files are intact and the volume is consistent |
| `Recovery.ReclaimedHasNoLeaks` | ext2/src/repair.rs:141-290 | after the repair every used bit belongs to something reachable or reserved |
| `Recovery.SecondRepairFreesNothing` | ext2/src/repair.rs:141-290 | a second repair frees no block and no inode |
| `Recovery.AlwaysReadable` | ext2/src/repair.rs:299-327 | in a consistent volume the walk never meets an unreadable inode |
| `Recovery.OneLength` | ext2/src/repair.rs:299-327 | where each inode has one name, two chains of names from the root to one inode are equally long |
| `Recovery.MountAndRepair` | kernel/src/fs/ext2.rs:278-295 | on a consistent image with one name per inode it is refused if and only if some chain from the root passes 65 distinct inodes; on success the reachable files are what they were and all that is left, counters exact, the directory counts of the groups as they were; safe at every image |
| `Operations.Lookup` | kernel/src/fs/ext2.rs:893-900 | returns the first entry of that name, none if and only if the directory shows none |
| `Operations.LinkNew` | kernel/src/fs/ext2.rs:930-941 | the entry appears in the last write; before it every image shows the old listing; a failure leaves listing and record as they were |
| `Operations.GiveBack` | kernel/src/fs/ext2.rs:930-941 | undoing an inode allocation changes no file and no listing, and takes back the directory it counted |
| `Operations.Create` | kernel/src/fs/ext2.rs:917-942 | ENOTDIR and EISDIR if and only if the parent, or what the name leads to, says so; ENOSPC only without a free inode, or without room in the directory and with every block in use at some image; otherwise an existing file is returned untouched, or one fresh empty regular file with mode 0644 and one link appears: its entry is added if it fits, its name, if it has 1 to 255 bytes and is not "." or "..", then leads to it while every other name keeps its meaning, and names stay unique if and only if the stored name was not taken; the parent's links and all directory counts stay; every crash image is consistent with the directory as before or as after |
| `Operations.LongNameClashes` | ext2/src/dirent.rs:34-40 | a name of 300 equal bytes, beside an entry of its first 44, is found free and stored as a second entry of that shorter name |
| `Operations.Mkdir` | kernel/src/fs/ext2.rs:944-987 | EEXIST if and only if the name is taken, ENOSPC only without a free inode or with every block in use at some image; otherwise one fresh empty directory of mode 0755 with two links, whose one block is "." leading to itself and ".." leading to its parent; its name is bound and unique under the same conditions as for a file, the parent gains a link and the group a directory; failures change no listing, record or count; safe at every image |
| `Operations.UpdateLinks` | kernel/src/fs/ext2.rs:979-986 | the directory has the given link count, its type and what it shows are as before, and nothing else changes |
| `Removal.RemoveName` | kernel/src/fs/ext2.rs:989-1024 | after the entry is gone and before anything is freed, what it named belongs to no one and the rest is consistent |
| `Removal.Release` | kernel/src/fs/ext2.rs:1003-1023 | frees exactly the blocks and the inode of what was removed, its record emptied and dated before its bit goes, no other file changing at any image |
| `Removal.Unlink` | kernel/src/fs/ext2.rs:989-1024 | succeeds if and only if the name leads to something that is not a directory, ENOENT if and only if it is missing, EISDIR if and only if it leads to a directory; then exactly the first entry of that name goes, every other name keeps its meaning, with unique names this one now leads nowhere and names stay unique; at the last link inode and blocks go, the record emptied first at every image, and otherwise the file keeps its blocks with one link fewer; failures write nothing; safe at every image |
| `Removal.Rmdir` | kernel/src/fs/ext2.rs:1026-1058 | succeeds if and only if the name leads to an empty directory, ENOTEMPTY if and only if it leads to one that is not; the inode and its blocks go, the record emptied first at every image, the parent loses a link and the group a directory, the other names keep their meaning, and with unique names this one leads nowhere; failures write nothing; safe at every image |
| `Removal.TruncateWindow` | kernel/src/fs/ext2.rs:446-476 | once any of a file's blocks is freed and its record still names it, no set holding the file is consistent |
| `Removal.TruncateToZero` | kernel/src/fs/ext2.rs:473-476 | as a whole it clears size and pointers, frees exactly the blocks and touches nothing else; the image before its last write, which is recorded, has the blocks free and nothing else changed, and is consistent if and only if there was nothing to free |
| `Writes.MakeSymlink` | kernel/src/fs/ext2.rs:1114-1159 | EEXIST if and only if the name is taken, ENOSPC only without a free inode, or with every block in use at some image when a block was needed; otherwise a link of mode 0777 whose target reads back, its name bound and unique under the same conditions as for a file, the parent's links as before; safe at every image |
| `Writes.WriteFile` | kernel/src/fs/ext2.rs:1197-1206 | at any offset the file's bytes change as `WriteFileRange` says, by as many bytes as got through, all of them exactly on success; ENOSPC only when every block is in use; at every image the record is the old one or the write is complete, and each byte is the old or the new one; every other inode is untouched |
| `Crash.Resolve` | kernel/src/fs/vfs.rs:282-362 | returns the inode the path names when each name is looked up in the directory before it, or the first failure on the way; that inode is reachable from the root |
| `Crash.Serve` | kernel/src/fs/ext2.rs:917-1159 | the step works on the inode the path names and has that request's own effect, or is refused for a stated reason, or has no effect if the path names nothing; its images, from the one before to the one after, are exactly those added to the history, and in each the inode is as before or as after and all others as before; reachability and unique names are kept under the stated conditions |
| `Crash.Run` | kernel/src/fs/ext2.rs:917-1159 | over any sequence of requests the log chains the steps, one per request, each with its effect, answer and images, and the history grows by exactly those images; every inode outside the log is unchanged at every one and, if every new entry fitted, everything in reach that was not removed still in reach; unique names stay unique if new names have at most 255 bytes |
| `Crash.CutIsCaught` | kernel/src/fs/ext2.rs:917-1159 | every image of a run but the first is one while some request was served: those before it are done, those after it not begun |
| `Crash.MountAfterCrash` | kernel/src/fs/ext2.rs:278-295 | mounting any crash image is refused if and only if a chain of 65 inodes exists; otherwise the volume is sound on what is reachable, untouched files have the content from before the run, and what the image still reached is reached |
| `Crash.ServeRound` | kernel/src/fs/ext2.rs:278-295 | requests, a power cut after any number of block writes, a mount: the mounted image is the one after that many writes and was caught while a known request was served; the mount is refused if and only if it holds a chain of 65 inodes; otherwise it is repaired into a sound volume in which what no request touched is unchanged |
| `Crash.ServeRounds` | kernel/src/fs/ext2.rs:278-295 | over any number of such rounds, each found what the mount before it left; either one is refused, with its image and the chain, or the volume is sound at the end and, if every new entry fitted, every inode reachable at the start that no request touched is reachable and byte for byte as it was |
| `Crash.Outlived` | kernel/src/fs/ext2.rs:278-295 | the same for any rounds that follow one another: what was kept through all of them is as it was, and with entries that fitted that is all that was reachable and not touched |
| `Crash.StaysReachable` | kernel/src/fs/ext2.rs:917-1159 | all that was reachable before an operation and is not removed by it is reachable in a crash image of it |
| `Crash.WindowStaysOpen` | kernel/src/fs/ext2.rs:446-476 | after any step that sets no bit and keeps records and data, a half-truncated file still makes every set that holds it inconsistent |
| `Crash.MountInWindow` | kernel/src/fs/ext2.rs:278-295 | the whole mount, counters and sweep, whether it succeeds or fails, leaves a half-truncated volume inconsistent |
| `Crash.CutTruncation` | kernel/src/fs/ext2.rs:446-476 | truncating a file that has blocks, cut off before the last block write and mounted, ends in an inconsistent volume |
| `Smallest.Consistent` | ext2/src/volume.rs:182-312 | a volume of eight 1 KiB blocks with a root directory satisfies the invariant |
| `Smallest.FirstFile` | kernel/src/fs/ext2.rs:917-942 | that volume is sound and mountable, and creating a file of any storable name on it succeeds; unless the name is empty, "." or "..", it then leads to the file |
| `Blocks.SplitAll` | kernel/src/allocator/buddy_allocator.rs:336-345 | splitting a block covers the same pages without overlap and without colliding with any other block |
| `Blocks.CoalesceApart` | kernel/src/allocator/buddy_allocator.rs:407-429 | coalescing covers the same pages without overlap |
| `Blocks.CoalesceMax` | kernel/src/allocator/buddy_allocator.rs:407-429 | coalescing into a set with nothing to merge leaves nothing to merge |
| `Blocks.RoundTrip` | kernel/src/allocator/buddy_allocator.rs:362-430 | freeing a block split off a fully merged set gives that set back, through all levels of splitting |
| `Blocks.FreeRangeIsOneBlock` | kernel/src/allocator/buddy_allocator.rs:362-387 | with nothing to merge, an aligned range whose pages are all free lies inside one free block |
| `Blocks.Canonical` | kernel/src/allocator/buddy_allocator.rs:407-429 | two sets of disjoint blocks with nothing to merge that cover the same pages are the same set |
| `Blocks.FreeingCommutes` | kernel/src/allocator/buddy_allocator.rs:407-429 | coalescing two blocks in gives the same free set in either order |
| `Regions.OrderIsLargest` | kernel/src/allocator/buddy_allocator.rs:195-201 | the order computed from trailing and leading zeros is the largest block that starts at the address and fits |
| `Regions.CutIsAligned` | kernel/src/allocator/buddy_allocator.rs:195-206 | a block is cut at a multiple of its size if and only if the address is page-aligned |
| `Regions.PiecesCover` | kernel/src/allocator/buddy_allocator.rs:182-208 | the blocks cut from a region are its whole pages, each exactly once |
| `Regions.PiecesMaximal` | kernel/src/allocator/buddy_allocator.rs:182-208 | no two of them could be merged |
| `Regions.MaximalExactly` | kernel/src/allocator/buddy_allocator.rs:182-208 | adding a region to a free set with nothing to merge leaves nothing to merge if and only if the buddies of its first and last piece were not free |
| `Regions.AtMostTwo` | kernel/src/allocator/buddy_allocator.rs:182-208 | a region gives at most two blocks of each order below the top |
| `Regions.TouchingRegions` | kernel/src/allocator/buddy_allocator.rs:182-208 | two touching one-page regions leave a free pair of buddies: an aligned free range that no free block holds |
| `Buddy.AddrRoundTrip` | kernel/src/allocator/buddy_allocator.rs:123-133 | an address and an order determine the block, and it starts at a multiple of its size |
| `Buddy.BuddyAddress` | kernel/src/allocator/buddy_allocator.rs:349-352 | flipping the size bit gives the buddy, and the lower of the two addresses is the parent's |
| `Buddy.BitsApart` | kernel/src/allocator/buddy_allocator.rs:53-133 | no two tracked blocks, of whatever orders, share a bit |
| `Buddy.MarkedEffect` | kernel/src/allocator/buddy_allocator.rs:137-163 | setting or clearing a block's bit changes what the bitmap says of that block alone |
| `Buddy.BuddyAllocator.AddBlock` | kernel/src/allocator/buddy_allocator.rs:216-230 | the block joins the front of its list and nothing else moves; its bit was never set before, so the double-free halt is unreachable |
| `Buddy.BuddyAllocator.RemoveFromHead` | kernel/src/allocator/buddy_allocator.rs:236-252 | exactly the head goes; links, bits and byte total follow |
| `Buddy.BuddyAllocator.RemoveArbitrary` | kernel/src/allocator/buddy_allocator.rs:263-326 | succeeds if and only if the block is among the first 4097 of its list, and then removes it alone; otherwise the lists are untouched |
| `Buddy.BuddyAllocator.SplitBlock` | kernel/src/allocator/buddy_allocator.rs:336-345 | one upper half of each order between goes to the front of its list, the lower part stays in hand, no byte is lost |
| `Buddy.BuddyAllocator.Allocate` | kernel/src/allocator/buddy_allocator.rs:362-387 | the block comes out of a smallest free block that will do, the head of its list, so an exact fit is never split; each list is exactly what it was but for that block and the halves left over; free and live pages together are unchanged; none only if every free block is smaller; keeps everything merged |
| `Buddy.BuddyAllocator.TryMerge` | kernel/src/allocator/buddy_allocator.rs:407-427 | merges if and only if the buddy is tracked, marked and among the first 4097 of its list; the phantom branches for a missing block are never taken |
| `Buddy.BuddyAllocator.MergeUp` | kernel/src/allocator/buddy_allocator.rs:407-429 | the merging loop ends where the way up first ends: each merge reads lists and bits as they were before the call |
| `Buddy.BuddyAllocator.Deallocate` | kernel/src/allocator/buddy_allocator.rs:394-430 | the new free set is exactly the block merged upward while the scan finds the buddy; from a set with nothing to merge, nothing mergeable is left if and only if at every step up the buddy was not free or the scan found it; while lists are searchable that is the full coalescing |
| `Buddy.FreeingFrom` | kernel/src/allocator/buddy_allocator.rs:394-430 | merging upward from a set with nothing to merge leaves nothing to merge if and only if the way up was clear |
| `Buddy.BuddyAllocator.AddRegion` | kernel/src/allocator/buddy_allocator.rs:182-208 | free grows by exactly the region's whole pages; nothing mergeable is left if and only if the buddies of the first and last piece were not free; each list grows by at most two, so a searchable, merged allocator stays so |
| `Buddy.BuddyAllocator.CountFreeBytes` | kernel/src/allocator/buddy_allocator.rs:441-459 | the pointer walk returns 4096 times the number of distinct free pages |
| `Buddy.BytesArePages` | kernel/src/allocator/buddy_allocator.rs:441-459 | list lengths times block sizes count every free page once |
| `Buddy.ApartRegions` | kernel/src/allocator/buddy_allocator.rs:182-208 | corollary of `Regions.MaximalExactly`: regions that do not touch what is free add no mergeable pair |
| `Buddy.FailsOnlyWhenFull` | kernel/src/allocator/buddy_allocator.rs:362-387 | with nothing left to merge, "every free block is smaller" holds if and only if no aligned range of that size is wholly free |
| `Buddy.GivesUp` | kernel/src/allocator/buddy_allocator.rs:394-430 | freeing a block whose free buddy lies beyond the search leaves the pair apart, so the next request for the pair is refused although its pages are wholly free |
| `Buddy.HighMemory` | kernel/src/allocator/buddy_allocator.rs:123-175 | every pair of pages above 512 MiB shows it: added as a region, taken one by one and freed, they are refused as a pair |
| `BuddyRun.Boot` | kernel/src/init/memory.rs:21-41 | after the memory map, exactly the whole pages of its regions are free, nothing is left to merge and every list is short enough to search |
| `Buddy.GiveBack` | kernel/src/allocator/buddy_allocator.rs:362-430 | allocating and freeing again restores the free set exactly |
| `BuddyRun.Serve` | kernel/src/allocator/buddy_allocator.rs:362-430 | one request against what the client holds: a grant is one new block taken out of a smallest free block that will do, a refusal changes nothing and every free block is smaller, a free puts back exactly what was held there; with nothing to merge a refusal means no aligned range is free |
| `BuddyRun.StepMerged` | kernel/src/allocator/buddy_allocator.rs:362-430 | one request leaves nothing to merge if and only if it is not a free whose way up is blocked |
| `BuddyRun.Run` | kernel/src/allocator/buddy_allocator.rs:362-430 | over any run the log chains one step per request, each with its effect and answer; at every state held blocks are disjoint and aligned and the pages managed are the same; nothing is ever left to merge if and only if every free found its way up clear, as it does while lists are short, and then no request is refused that could be met |
| `BuddyRun.RunMerged` | kernel/src/allocator/buddy_allocator.rs:362-430 | the if-and-only-if over a whole run, and the honesty of its refusals |
| `Slab.OrderIsLeast` | kernel/src/allocator/slab.rs:19-30 | the order is the least one, 12 or above, whose blocks hold the size |
| `Slab.ClassFrom` | kernel/src/allocator/slab.rs:67-69 | the class is the first that holds the size; none if and only if all are too small |
| `Slab.SizesArePowers` | kernel/src/allocator/slab.rs:9-12 | every class is a power of two no larger than 2048 |
| `Slab.RunFills` | kernel/src/allocator/slab.rs:271-284 | the objects cut from a page are all and only the multiples of the size in it |
| `Slab.SlabCache.Expand` | kernel/src/allocator/slab.rs:255-292 | adds one page's slots to the free objects; fails only when the buddy allocator has no free page |
| `Slab.SlabCache.Allocate` | kernel/src/allocator/slab.rs:197-233 | hands out a slot that was not in use, taking one page from the buddy allocator if and only if no object was free; total equals used plus free; last freed is first handed out again |
| `Slab.SlabCache.Deallocate` | kernel/src/allocator/slab.rs:236-252 | the object returns to the front of the free list and the counters follow |
| `Heap.NoOverlap` | kernel/src/allocator/slab.rs:72-163 | no two live allocations, small or large, share a byte |
| `Heap.AlignedAsAsked` | kernel/src/allocator/slab.rs:72-91 | an address aligned to its class or block is aligned as the layout asks |
| `Heap.SlabAllocator.constructor` | kernel/src/allocator/slab.rs:59-64 | starts with nothing handed out; every block out belongs to someone else |
| `Heap.SlabAllocator.Allocate` | kernel/src/allocator/slab.rs:72-91 | a fresh, aligned address recorded with its layout, or null when memory is short, or a panic if and only if the request exceeds 2^28; a large one takes its own block and no more, a small one a page for its class if and only if the class had no free object; every block out is a page of one cache, one large allocation or was out before |
| `Heap.SlabAllocator.AllocateLarge` | kernel/src/allocator/slab.rs:120-144 | large requests become a buddy block of their own that no cache uses |
| `Heap.SlabAllocator.Deallocate` | kernel/src/allocator/slab.rs:94-163 | takes back exactly that allocation: a large one frees its block into the buddy allocator, merged as far as the scan gets, and a small or null one leaves the buddy allocator alone; every block out still has its one owner |
| `Getdents.NewEntry` | kernel/src/fs/types.rs:243-249 | the name is kept if and only if it has at most 255 bytes, otherwise its first 255 |
| `Getdents.TypesAgree` | kernel/src/fs/types.rs:58-66 | the type byte of a file, directory or symlink is the type its inode has in the top bits of its mode |
| `Getdents.WriteDirent` | kernel/src/fs/types.rs:263-274 | the in-place writes leave the record's bytes, padding included, and the rest of the buffer untouched |
| `Getdents.FromSnapshot` | kernel/src/fs/vfs.rs:516-530 | the buffer starts with exactly the records of the entries passed, the rest untouched; it stops only at the end or where the next record does not fit; 0 is returned if and only if the position is at the end or the next record is larger than the buffer |
| `Getdents.SameAnswer` | kernel/src/fs/vfs.rs:516-530 | an entry that does not fit and a listing that has ended give the same answer, 0, for an entry of any name |
| `Getdents.Ended` | kernel/src/fs/vfs.rs:516-530 | with room for 280 bytes, 0 means the end and nothing else |
| `Getdents.ParseRecord` | userspace/src/syscall.rs:243-256 | parsing a packed record, whatever follows it, returns inode, type, length and the name up to its first NUL |
| `Getdents.NextPosition` | kernel/src/fs/vfs.rs:524-525 | the offset field of every packed record is the position of the entry after it |
| `Getdents.SeenName` | userspace/src/syscall.rs:254-255 | the reader sees the entry's own name if and only if it holds no NUL |
| `Getdents.ReadViews` | userspace/src/bin/demo.rs:62-80 | the reader's loop returns all records of a buffer |
| `Getdents.ViewsPacked` | kernel/src/fs/vfs.rs:516-530 | splitting packed records gives the entries in order, none lost and none twice |
| `Getdents.ReadAll` | kernel/src/fs/vfs.rs:516-530 | over any sequence of buffers the reader sees a prefix of the snapshot, and all of it once there are as many buffers as entries and each has room for the largest record |

## Left out

- Device failures other than a block number out of range: every write reaches the disk, in order.
- Superblock parsing and mount errors; the geometry is a parameter. Volumes whose last group would be empty are excluded (`Geometry.Superblock.Valid`), and the mount theorems assume metadata sits where the repair looks for it (`Recovery.TightRoles`).
- Hard links, rename (`take_child`, `insert_child`, `set_dotdot`), chmod, owners, `i_blocks` and timestamps other than the deletion time: each inode is assumed to have one name, which the modelled operations keep.
- Several handles on one file: the source works on cached inode records, and each modelled operation requires its record to equal the one on disk.
- Names and targets are byte strings; UTF-8 validation and lossy conversion are not modelled.
- Crash.Resolve: paths are lists of names followed downwards; symlinks in paths, "..", mounts and path syntax are not modelled.
- Open flags, seek and append.
- Memory ordering weaker than sequential consistency, and locks.
- Physical memory contents other than the free-list pointers; the poison bytes and debug assertions of the slab allocator. Release semantics throughout: overflow wraps where the source's types do.
- Operations.Create: does not model names longer than the block size minus 8, because the source would slice out of bounds there; the same bound applies to Mkdir, MakeSymlink and AddDirEntry.
- Walk.VisitTargets: recursion by level stands for the source's three nested loops, and the visitor closure is a flag for its two uses, freeing and marking.
- Removal.TruncateToZero: its crash images are described only at the point before its last write.
- Crash.Serve: a write to an inode that is neither a regular file nor a directory is refused with EINVAL, as opening a symlink is; the source would write to a device or other special inode.
- BuddyRun.Boot: requires page-aligned regions below 512 MiB with a page between any two, and at most 2048 of them.
- Symlink.WriteSymlinkTarget: when a long target runs out of space, blocks already linked stay allocated until the next mount repair, as in the source.
- Buddy.BuddyAllocator.AddRegion: requires a page-aligned start, because the source cuts unaligned blocks otherwise.
- Heap.SlabAllocator.Deallocate: requires the pointer to be one handed out with the same layout, as the allocator interface demands.
- Scheduler, paging, IPC, signals, drivers and other file systems: dispatch and hardware plumbing, not part of this model.
