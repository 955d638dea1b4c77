# Obsidian kernel: a verified model of its storage core, heap, journal and checksums

The project models the parts of the Obsidian kernel that hold state others depend on, and proves what
they keep over whole runs.

* **ext4 driver** (`fs/ext4_core.c`, `fs/ext4_fsops.c`, `fs/ext4_mount.c`). The disk is a sequence of byte
  blocks. Group descriptors, bitmaps, inode records, extent nodes and directory records are read and
  written at their byte offsets. `Volume`, `Allocator`, `Driver` and `AllocRuns` hold the block allocator;
  `Inodes`, `Runs`, `Extents`, `Tree`, `Plan`, `Files`, `Indirect`, `SectorCount`, `Truncate`, `Release`, `ReadWrite`,
  `FileTheorems` and `Reclaim` the files, `MapChains` and `FileMap` what truncation must release and what a file must
  read as, and `Sample` concrete volumes; `DirBlock`, `Directory` and `DirMap` the directories;
  `Paths` the two path resolvers.
* **Kernel heap** (`mm/heap_c.c`). `HeapModel`, `HeapSteps`, `Heap`, `HeapWrap`, `KernelHeap` and
  `HeapTheorems` work on the region's bytes with the headers in them, against a ghost list of blocks.
* **Journal recovery** (`fs/ext4_journal.c`). `JournalLog` says what a log asks for, `JournalReplay` runs the
  two passes and the reset, `JournalCrash` stops them after any write. `JournalBytes` and `JournalEffect` say what
  must be on the disk afterwards, from the journal's bytes alone.
* **Arithmetic**: `Crc32c`, `Crc16`, `CrcPoly` and `Csum` (`fs/ext4_csum.c`), `Divide` (`lib/udivmod64.c`),
  `InetChecksum` (`net/stack.c`). `Bytes` and `Arith` are shared.

A volume is `Volume.Valid` when every descriptor slot on disk equals its cached copy, every group's counter
equals the clear bits of its bitmap, the superblock counter equals their sum, and no metadata block (boot block,
superblock, descriptors, both kinds of bitmap, inode tables) is free. Every operation of the driver keeps it,
but for freeing metadata. A heap is `KernelHeap.KHeap.Valid` when its blocks tile the region,
the headers in memory describe them, the free list is exactly the free blocks in ascending order, no two
free blocks touch, and the byte counters add up. Every operation of the heap keeps it, but for the requests
named below.

## Where the code does not do what it is for

Each of these is modelled as the code has it, with the exact condition.

* `e4_dir_lookup` never finds a name. The callback stops the scan with 1 on a match, and the lookup takes any
  nonzero result for an error (fs/ext4_fsops.c:409-418, 455-464). It agrees with the directory exactly for
  names that are not there (`Directory.LookupAgreesIff`), so only the root path resolves
  (`Paths.OnlyRootResolves`) and `ext4_write` takes every name for a new one. The scan itself is
  right (`Directory.Dir.Scan`), and the resolvers are proved to agree for every lookup. A directory is a map of
  names exactly while no bound name is added (`DirMap.AddToMap`); with duplicates a name is found exactly while its
  additions outnumber its removals (`DirMap.RunCountsNames`, `DirMap.DuplicateSurvives`).
* The allocator's group sum wraps at 2^32 before the remainder is taken (fs/ext4_core.c:588). A search covers
  every group exactly when the hint plus the group count does not exceed 2^32, or the group count divides 2^32
  (`Driver.SearchCoverage`, `Driver.LastHintMissesGroup`).
* Truncation does not release the data under a two-level tree, nor the part of a run its count field cannot
  express (fs/ext4_fsops.c:249-279). It undoes an append exactly when the blocks form at most four runs of at most
  32767 blocks; what is lost is missing from the free set, the counters and the sector count alike
  (`Reclaim.TruncateUndoesAppend`). `Sample.FiveRunsLost` is a volume on which the allocator hands out such blocks.
* `e4_free_block` frees metadata too. A run of calls keeps the volume valid exactly when none does that
  (`AllocRuns.RunSafety`).
* `do_replace` releases a file's blocks before it has new ones (fs/ext4_mount.c:340-365). It succeeds exactly when
  the inode is in range and extent-mapped and the new contents fit into the free blocks and the file's own old ones
  together: the data, and the leaves of the tree over the blocks the allocator will pick (`ReadWrite.ReplaceFits`;
  by `Plan.PickedUnique` the picks are determined by the free blocks before the call). Afterwards the inode on disk
  maps only blocks of its own exactly when that condition holds or the old tree was empty, and a replacement that
  runs out of blocks has taken every old block over (`ReadWrite.DoReplace`). `Sample.ReplaceOnFullVolume` is a
  volume on which it fails.
* A run longer than 32767 blocks reads back wrongly, because the count field doubles as the unwritten mark
  (`Extents.LookupInvertsRuns`, `Tree.TreeInvertsRuns`, `Extents.LongRunReads`). The write cap of 16 MiB keeps files
  below that (`FileTheorems.CapFits`).
* `extent_lookup` starts a deeper tree at block 0 (fs/ext4_core.c:402-414). With no index entries there, a file
  reads back exactly when its blocks form at most four runs (`FileTheorems.ReadableIffInline`).
* The tag that carries the last-tag flag is not applied (fs/ext4_journal.c:217-218): exactly the tags before
  the first stop are (`JournalReplay.TagsUpToStop`).
* Only the first 256 distinct commit sequences are remembered; `JournalLog.TrackedExactly` says which.
* `kmalloc` hands out a large enough block exactly for sizes up to 0xFFFFFFE0 (`HeapTheorems.AllocationSafe`,
  `HeapTheorems.HugeRequestUnderserved`). For the sixteen sizes from 0xFFFFFFE1 to 0xFFFFFFF0 the header sum wraps to
  zero and the split overwrites the block's own header; the heap stays valid exactly when there is no free block or
  the first one is empty, and otherwise no list of blocks describes it (`KernelHeap.KHeap.KMalloc`,
  `HeapWrap.WrapBreaks`, `HeapTheorems.FreshHeapBroken`). That is so where `size_t` has 32 bits: `HDR_SIZE` is a
  `sizeof`, and a 64-bit build computes the sum in 64 bits. `kfree` turns a live pointer away exactly when its
  header is 2 GiB or more into the heap (`KernelHeap.LiveFreeable`).
* The heap's free counter includes all headers but one (`HeapTheorems.FreeBytesMeaning`).
* The comment of `fs/ext4_csum.c` calls its CRC16 identical to the one of e2fsprogs. The model follows the
  code, whose polynomial is 0x1021, high bit first.

## Model

| member | source | states |
|---|---|---|
| `Volume.Geometry.BlkOfInverts` | fs/ext4_core.c:519-522 | Block numbers and (group, index) pairs are in one-to-one correspondence, inside the volume |
| `Volume.BlkLayout` | fs/ext4_core.c:519-522 | Blocks are numbered through the groups, from the first data block on |
| `Volume.DescLayout` | fs/ext4_core.c:271-288 | Descriptors lie end to end in the blocks behind the superblock's, as many to a block as fit |
| `Volume.LocStored` | fs/ext4_core.c:524-547 | A descriptor's block numbers read back as the format stores them, in 64 bits or in 32 |
| `Volume.AdjustDescKeeps` | fs/ext4_core.c:549-556 | Moving the free-block count changes no other byte of a descriptor, and its high half is zero |
| `Allocator.SyncGdSlots` | fs/ext4_core.c:271-288 | Writing one descriptor back stores it in its own slot and leaves every other group's slot as it was |
| `Allocator.FlipFreeSet` | fs/ext4_core.c:617-626 | Changing one bitmap bit adds or removes exactly the one block it stands for from the set of free blocks |
| `Allocator.FlipSynced` | fs/ext4_core.c:617-622 | After a bit changes, every descriptor on disk still equals its cached copy |
| `Allocator.FlipBytes` | fs/ext4_core.c:617-626 | Of the whole disk only one bitmap byte and the group's free-block count can change |
| `Allocator.FlipDescriptors` | fs/ext4_core.c:617-622 | Every descriptor byte outside the free-block counts, cached and on disk, is as it was, and so is every other group's cached descriptor |
| `Allocator.FlipCounted` | fs/ext4_core.c:549-565 | After a bit changes, every group counter still counts its clear bits and the superblock counter their sum |
| `Allocator.FlipValid` | fs/ext4_core.c:583-661 | Taking a free block, or releasing one that is not metadata, keeps the volume valid |
| `Allocator.WriteBlockValid` | fs/ext4_core.c:623-625 | Writing a block that is not bitmap or descriptor changes no allocation state |
| `Driver.TakeAllocates` | fs/ext4_core.c:617-627 | The writes of an allocation take one block that was free, is no metadata and comes back zeroed, and besides change only bitmap and descriptor blocks |
| `Driver.FlipFrees` | fs/ext4_core.c:656-660 | The writes of a free of a file's block release exactly that block and change no file contents and no descriptor but its count |
| `Driver.FreeKeepsValidIff` | fs/ext4_core.c:635-661 | Freeing a block in use keeps the volume valid if and only if it is not metadata |
| `Driver.SearchCoverage` | fs/ext4_core.c:587-588 | A search looks at every group if and only if its 32-bit sum does not wrap, or the group count divides 2^32 |
| `Driver.VisitSteps` | fs/ext4_core.c:587-588 | A search starts at its hint's group and goes on to the next, from the last back to the first |
| `Driver.LastHintMissesGroup` | fs/ext4_core.c:587-588 | Three groups and the largest hint: the third group is never looked at |
| `Driver.FailureMeansFull` | fs/ext4_core.c:587-632 | When the search covers the groups, failing means no block of the volume is free and the counter is zero |
| `Driver.FindClearBit` | fs/ext4_core.c:607-617 | The byte and bit loops find the lowest clear bit of the valid range, or there is none |
| `Driver.Ext4.AdjustFreeBlocks` | fs/ext4_core.c:549-565 | Group and superblock counters move by the given amount, clamped at zero |
| `Driver.Ext4.SyncDescriptor` | fs/ext4_core.c:271-288 | The descriptor block on disk changes in the group's slot only |
| `Driver.Ext4.TakeBit` | fs/ext4_core.c:618-626 | The writes of an allocation in the driver's own order amount to the specified step |
| `Driver.Ext4.AllocBlockNear` | fs/ext4_core.c:583-633 | The first free block in search order is taken, zeroed and accounted, and no descriptor byte outside the group's count changes; failure changes nothing and every group looked at is full |
| `Driver.Ext4.DropBit` | fs/ext4_core.c:656-660 | The writes of a free in the driver's own order amount to the specified step |
| `Driver.Ext4.FreeBlock` | fs/ext4_core.c:635-661 | Succeeds if and only if the block is in the volume and in use; then exactly it becomes free, no descriptor byte outside the group's count changes, and the volume stays valid if and only if it was no metadata; otherwise nothing changes |
| `AllocRuns.SbFreeIsCard` | fs/ext4_core.c:549-565 | On a valid volume the superblock counter is the number of free blocks |
| `AllocRuns.StepKeeps` | fs/ext4_core.c:583-661 | One call that frees no metadata leaves every other block in use where it is, with its contents |
| `AllocRuns.StepValidIff` | fs/ext4_core.c:583-661 | One call keeps a valid volume valid if and only if it frees no metadata in use |
| `AllocRuns.RunSafety` | fs/ext4_core.c:583-661 | Every state of a run is valid if and only if no call frees metadata in use; on valid states the counter is exact, and a block in use keeps its contents until it is freed, and every descriptor byte outside the free-block counts its value |
| `Inodes.PutRawReads` | fs/ext4_core.c:309-365 | A written inode reads back as written and every other inode as before, also when records straddle blocks |
| `Inodes.InodeLayout` | fs/ext4_core.c:309-335 | Inode records lie end to end in their group's table, numbers starting at one |
| `Inodes.PutRawEvolves` | fs/ext4_core.c:337-365 | Writing an inode touches inode-table blocks only and keeps the volume valid |
| `Inodes.RawAtSame` | fs/ext4_core.c:309-335 | Disks that agree on the inode tables hold the same inodes |
| `Inodes.ReadInode` | fs/ext4_core.c:309-335 | Succeeds if and only if the number is in range, with the record from one block or two |
| `Inodes.WriteInode` | fs/ext4_core.c:337-365 | Succeeds if and only if the number is in range; the record is stored and the volume stays valid |
| `Runs.RunsOfEncodes` | fs/ext4_fsops.c:186-217 | The collected runs are gap-free, cannot be merged, and expand to exactly the allocated blocks |
| `Runs.MaximalIsUnique` | fs/ext4_fsops.c:203-215 | There is only one such run list for given blocks |
| `Runs.ExpandAt` | fs/ext4_fsops.c:203-215 | File block n of a gap-free list is the n-th block it expands to |
| `Extents.FillExtents` | fs/ext4_fsops.c:126-135 | The entry loop stores every run so that it reads back, and changes nothing else |
| `Extents.SearchLeaf` | fs/ext4_core.c:420-441 | The entry loop of the lookup computes the leaf's block map |
| `Extents.LookupInvertsRuns` | fs/ext4_core.c:420-441 | A leaf holding a run list maps each file block to its own disk block and all else to a hole, if and only if no run exceeds 32767 blocks |
| `Extents.LongRunMisread` | fs/ext4_fsops.c:131-132 | The last block of a longer run reads as a hole |
| `Extents.LongRunReads` | fs/ext4_fsops.c:131-132 | A run of 32768 blocks loses just its last, and up to 65535 blocks the whole run reads as unwritten |
| `Tree.KeysIncrease` | fs/ext4_fsops.c:165-172 | The index keys of a two-level tree strictly increase |
| `Tree.TreeChooses` | fs/ext4_fsops.c:148-172 | The last index whose key does not exceed a block leads to the leaf whose runs cover it |
| `Tree.TreeDenotes` | fs/ext4_fsops.c:139-173 | Reading that leaf gives the run list's own map, for every file block: its disk block, or a hole outside the runs |
| `Tree.TreeInvertsRuns` | fs/ext4_fsops.c:139-173 | The tree denotes the run list's map if and only if no run exceeds 32767 blocks |
| `Plan.PickUnique` | fs/ext4_core.c:583-633 | The block a search takes is determined by the free blocks and the hint |
| `Plan.SearchPicks` | fs/ext4_core.c:583-633 | What the driver's search takes is that block |
| `Plan.HintIs` | fs/ext4_fsops.c:189-191 | The search for file block n starts in the group whose number is n divided by the group size |
| `Plan.PickedUnique` | fs/ext4_fsops.c:186-217 | The blocks of a whole append are determined by the free blocks before it |
| `Plan.WillFitIs` | fs/ext4_fsops.c:98-226 | Whether an append fits is decided by the tree over the blocks that will be picked |
| `Plan.SmallIsCovered` | fs/ext4_fsops.c:190-192 | The searches of an append that ends 65536 blocks below 2^32 cover all groups |
| `Files.AddSectorsMoves` | fs/ext4_fsops.c:31-45 | The sector count, split over two fields in large inodes, moves by exactly the sectors of the byte amount, but not below zero |
| `Files.SizeStored` | fs/ext4_core.c:372-383 | An inode's size reads back as stored, in 64 bits where the volume has large files and the inode is no directory |
| `Files.FilledBytes` | fs/ext4_fsops.c:194-199 | The j-th block appended holds the j-th block of the data, or zeros without data |
| `Files.FreeRun` | fs/ext4_fsops.c:257-261 | Freeing an extent frees exactly its blocks |
| `Files.FreeInline` | fs/ext4_fsops.c:248-264 | All blocks an inline tree maps become free, once each, and are counted |
| `Files.FreeLeaves` | fs/ext4_fsops.c:266-279 | For a deeper tree only the leaf blocks themselves become free |
| `Files.FreeExtentTree` | fs/ext4_fsops.c:230-284 | Exactly the data of an inline tree, or the leaf blocks of a deeper one, become free and the inode is left empty with its sectors reduced |
| `Files.AllocateRuns` | fs/ext4_fsops.c:186-217 | The blocks taken are the first free ones of each search in turn, they hold the data chunk by chunk, and the runs are theirs; when the searches cover all groups it succeeds if and only if that many blocks are free, and failing leaves none free |
| `Files.BuildInline` | fs/ext4_fsops.c:103-137 | Up to four runs are held by the inode's own root node, and nothing else in the inode changes |
| `Files.WriteLeaf` | fs/ext4_fsops.c:58-96 | A fresh block holds its share of the runs, and leaves written before are untouched; failing means that no block is free |
| `Files.WriteLeaves` | fs/ext4_fsops.c:139-155 | Succeeds if and only if there are free blocks for all leaves; they then hold the runs in order, each within capacity, in distinct fresh blocks |
| `Files.FillIndex` | fs/ext4_fsops.c:157-172 | Entry l is keyed by the first file block of leaf l and points at it |
| `Files.TreeBuilt` | fs/ext4_fsops.c:139-173 | Leaves and index together make a tree that holds the run list |
| `Files.BuildTree` | fs/ext4_fsops.c:98-174 | Inline for up to four runs, else a two-level tree holding them, with only its leaf blocks taken; succeeds if and only if there are at most four runs, or at most four leaves with a free block for each |
| `Files.AppendBlocks` | fs/ext4_fsops.c:176-226 | When the searches cover all groups, succeeds if and only if the free blocks before the call suffice for the data and for the tree over the blocks that will be picked; then the file maps fresh blocks holding the data, apart from the fresh leaf blocks, and its sectors grow by exactly both; otherwise no block is left free or the tree is too deep |
| `Indirect.FreeIndirect` | fs/ext4_fsops.c:286-318 | For an unshared pointer tree of any depth exactly the reachable data and pointer blocks become free, each once, and are counted |
| `Indirect.FreeKids` | fs/ext4_fsops.c:310-314 | The loop over one node frees exactly what lies under its pointers |
| `Truncate.FreeDirect` | fs/ext4_fsops.c:332-338 | The blocks of the twelve direct pointers become free and are counted |
| `Truncate.FreeTrees` | fs/ext4_fsops.c:339-345 | The blocks of the three pointer trees become free and are counted |
| `Truncate.ClearPointers` | fs/ext4_fsops.c:332-345 | No pointer is left in the inode |
| `Truncate.TruncateInode` | fs/ext4_fsops.c:320-353 | Only to zero; what becomes free is exactly what `MapChains` says; the inode is left empty, its sector count less by what was released, and every byte outside size, sectors and block area as it was |
| `MapChains.ReachIsChains` | fs/ext4_fsops.c:286-318 | A pointer tree holds exactly the blocks that chains of nonzero pointers, read out of blocks on the disk, lead to |
| `MapChains.LegacyReleases` | fs/ext4_fsops.c:320-353 | Truncating a legacy inode releases a block if and only if it is a nonzero direct pointer, or a chain of at most one, two or three further pointers leads to it from the last three |
| `MapChains.ExtentReleases` | fs/ext4_fsops.c:230-284 | Truncating an extent-mapped inode releases a block if and only if a written extent of the inline root covers it, or an index root points at it |
| `Truncate.EmptiedBytes` | fs/ext4_fsops.c:281-353 | The truncated inode byte for byte: size zero, pointers zero or the tree's entry count and depth zero, all else but the sector count unchanged |
| `Truncate.EmptiedSectors` | fs/ext4_fsops.c:281-347 | Its sector count is less by the blocks released, or for a deeper tree by the entries its root claims |
| `ReadWrite.DeepTreesUnreadable` | fs/ext4_core.c:402-414 | With no index entries in block 0 every lookup through a deeper root fails |
| `ReadWrite.ChooseIndex` | fs/ext4_core.c:444-453 | The index loop ends with the last entry whose key does not exceed the file block, or none |
| `ReadWrite.FindExtent` | fs/ext4_core.c:387-460 | The descent computes the file's block map, for every root node and every depth |
| `ReadWrite.FetchBlock` | fs/ext4_mount.c:318-331 | One file block arrives in the scratch buffer, zeros for a hole, if and only if it can be mapped and lies on the disk |
| `FileMap.LookupIsFirst` | fs/ext4_core.c:420-441 | The first entry that covers a file block decides where it lies; an unwritten one and none at all mean a hole |
| `FileMap.DescendIs` | fs/ext4_core.c:402-456 | A lookup succeeds if and only if index nodes lead on from block 0 as often as the root is deep, each by its last entry whose key does not exceed the block |
| `FileMap.BytesAre` | fs/ext4_mount.c:310-333 | A file block can be read if and only if it maps to a hole or a block of the disk, and byte r of it is then zero or that block's byte r |
| `ReadWrite.ReadLoop` | fs/ext4_mount.c:305-336 | Fails if and only if some block cannot be mapped; otherwise the buffer starts with the file's first bytes and is untouched beyond them |
| `ReadWrite.DoReplace` | fs/ext4_mount.c:340-365 | Succeeds if and only if the inode is in range and extent-mapped and the contents fit into the free blocks and the old ones; then the inode on disk maps fresh blocks holding the data, has the new size and times, its sectors moved by old and new blocks, and every other byte as before; on failure no inode changes, and either every old block has been taken over or the tree is too deep; the inode on disk maps only blocks of its own if and only if the call succeeds or the old tree was empty; every other inode, owned block and descriptor byte is unchanged |
| `ReadWrite.RewrittenBy` | fs/ext4_mount.c:352-364 | Truncating, appending and stamping leave an inode that differs in size, times, sector count and block area only, with each time field the new time |
| `FileTheorems.ReadAfterReplace` | fs/ext4_mount.c:310-365 | After a replacement with at most four short runs, reading any prefix gives that prefix of the data |
| `FileTheorems.ReplaceAndRead` | fs/ext4_mount.c:305-365 | Writing, reading the inode and reading the file in one go: the write succeeds if and only if the contents fit; the read then gives exactly the data when the blocks form at most four runs, and fails when they form more and block 0 has no index entries |
| `FileTheorems.CapFits` | fs/ext4_mount.c:367-376 | Under the write cap no run is too long for its count field |
| `FileTheorems.ReadableIffInline` | fs/ext4_core.c:402-441 | Under the cap, with no index entries in block 0, a file reads back as written if and only if its blocks form at most four runs |
| `FileTheorems.OtherFileKept` | fs/ext4_mount.c:340-365 | Another inline file whose blocks were not released reads exactly as before a replacement |
| `Release.InlineReleases` | fs/ext4_fsops.c:248-264 | An inline tree releases distinct blocks it was built from, and all of them if and only if every run's count fits |
| `Release.DeepReleases` | fs/ext4_fsops.c:266-279 | A deeper tree releases its leaf blocks and none of the data |
| `Reclaim.SectorsAfter` | fs/ext4_fsops.c:31-45 | After an append and a truncation the sector count is off by exactly the blocks not released |
| `Reclaim.SameFreeSameCounters` | fs/ext4_core.c:549-565 | Equal free sets mean equal group counters |
| `Reclaim.TakenThenPartFreed` | fs/ext4_core.c:583-661 | Taking blocks and giving part of them back leaves free set and counter short by exactly the rest |
| `Reclaim.TruncateUndoesAppend` | fs/ext4_fsops.c:176-353 | After a successful append, truncating restores the free set, all counters and the sector count if and only if the blocks form at most four runs of at most 32767 blocks; otherwise each is off by exactly the blocks lost |
| `Reclaim.TruncateCounts` | fs/ext4_fsops.c:320-353 | The superblock counter grows by exactly the blocks truncation releases, and a pointer map's sector count shrinks by exactly theirs |
| `Sample.ImageValid` | fs/ext4_core.c:549-565 | The one-group volume is valid once its metadata blocks are marked and its counter is right |
| `Sample.ReplaceOnFullVolume` | fs/ext4_mount.c:340-365 | On a full volume replacing a file of one block by two blocks fails and leaves an inode that maps a block it does not own |
| `Sample.FiveRunsLost` | fs/ext4_fsops.c:112-137 | A volume on which an append of five blocks succeeds, takes exactly the five blocks 10 to 18 that do not touch, and so is not undone by truncation |
| `Sample.FourRunsFit` | fs/ext4_fsops.c:112-137 | Four blocks that do not touch are still held inline |
| `Directory.InsertBinds` | fs/ext4_fsops.c:548-570 | Splitting a record's slack keeps the block tiled by four-aligned records and adds exactly the new binding |
| `Directory.EraseUnbinds` | fs/ext4_fsops.c:722-725 | A tombstone keeps the block tiled and removes exactly its binding |
| `Directory.FindInBlock` | fs/ext4_fsops.c:363-418 | The scan reports the first live record of the name, or there is none |
| `Directory.AddToBlock` | fs/ext4_fsops.c:535-577 | The first record with the room gives its slack to a record with the name, inode and type, and no other byte changes; or the block is unchanged and no record in it has the room |
| `Directory.InsertPlaces` | fs/ext4_fsops.c:548-570 | The new record byte for byte, and the old record's length; nothing else changes |
| `Directory.RemoveFromBlock` | fs/ext4_fsops.c:712-733 | Succeeds if and only if the name is bound; then its first binding is gone, by four zero bytes and nothing else |
| `Directory.Dir.Scan` | fs/ext4_fsops.c:420-453 | Over all blocks: the inode of the first binding and a nonzero result, if and only if the name is bound |
| `Directory.Dir.Lookup` | fs/ext4_fsops.c:455-464 | Never an inode, whatever the directory holds |
| `Directory.LookupAgreesIff` | fs/ext4_fsops.c:404-464 | The lookup answers as the directory does if and only if the name is not there; it never succeeds |
| `Directory.LookupMissesEntry` | fs/ext4_fsops.c:404-464 | A directory block of one record whose entry is not found |
| `Directory.Dir.Add` | fs/ext4_fsops.c:526-578 | Exactly one binding more, in the first block and record with room; or nothing changes because no record of any block has the room |
| `Directory.Dir.Remove` | fs/ext4_fsops.c:695-736 | Exactly one binding less if and only if the name is bound, else nothing changes |
| `DirMap.MapOfIs` | fs/ext4_fsops.c:404-418 | What a scan finds is what the name-to-inode map holds |
| `DirMap.AddToMap` | fs/ext4_fsops.c:526-578 | Names stay distinct if and only if the added name was not bound; then the map gains exactly that entry |
| `DirMap.RemoveFromMap` | fs/ext4_fsops.c:695-736 | The map loses exactly that entry |
| `DirMap.RunRefinesMap` | fs/ext4_fsops.c:363-736 | After every run of additions of new names and removals, a scan for any name answers as the map built by the same operations |
| `DirMap.StepTimes` | fs/ext4_fsops.c:526-736 | One call changes the number of bindings of a name by exactly one, for that name only, and invents none |
| `DirMap.RunCountsNames` | fs/ext4_fsops.c:363-736 | After every run, names added again included, a name is found if and only if its first bindings and additions outnumber its removals |
| `DirMap.DuplicateSurvives` | fs/ext4_fsops.c:526-736 | A name added twice and removed once is still found |
| `Paths.ResolveFull` | fs/ext4_mount.c:25-67 | The parsing loops walk exactly the non-empty components from the root, for every string |
| `Paths.ResolveParent` | fs/ext4_mount.c:69-135 | Trailing slashes dropped, the last component cut off, and the rest walked to a directory |
| `Paths.ResolversAgree` | fs/ext4_mount.c:25-135 | A path with a component resolves to an inode if and only if its parent and name exist and looking the name up there gives it; slashes alone resolve to the root and have no parent |
| `Paths.OnlyRootResolves` | fs/ext4_mount.c:59-60 | With a lookup that never succeeds, exactly the paths without components, shorter than 128 bytes and starting with a slash, resolve, to inode 2 |
| `Heap.AlignUpExact` | mm/heap_c.c:34-36 | Rounding up means what it should if and only if the size is at most 0xFFFFFFE0, and which sizes wrap the header sum |
| `Heap.AllocRep` | mm/heap_c.c:79-100 | After the header writes of an allocation memory and free list represent the carved blocks |
| `Heap.BackAdjacent` | mm/heap_c.c:164-169 | The address test for merging backwards holds if and only if the block before is free |
| `Heap.FrontAdjacent` | mm/heap_c.c:172-180 | The address test for merging forwards holds if and only if the block behind is free |
| `KernelHeap.KHeap.constructor` | mm/heap_c.c:38-53 | The heap starts as one free block over the whole region |
| `HeapWrap.Alloc32Is` | mm/heap_c.c:79-100 | The header writes in 32 bits are those in plain arithmetic unless the header sum wraps |
| `HeapWrap.WrapBreaks` | mm/heap_c.c:79-100 | When it wraps and the first free block is not empty, no list of blocks describes what is left |
| `HeapWrap.WrapHarmless` | mm/heap_c.c:79-100 | When it wraps and the first free block is empty, the heap stays valid |
| `KernelHeap.KHeap.FindFit` | mm/heap_c.c:73-79 | The list walk finds the lowest free block large enough, or there is none |
| `KernelHeap.KHeap.Carve` | mm/heap_c.c:80-104 | Split, unlink and mark, as header writes in 32 bits |
| `KernelHeap.TakeStep` | mm/heap_c.c:73-112 | What the writes leave for every size: a valid heap with the first fitting block taken, or, for the sizes that wrap, a broken one if and only if the first free block is not empty |
| `KernelHeap.KHeap.KMalloc` | mm/heap_c.c:67-118 | For every 32-bit size: the heap stays valid if and only if the header sum does not wrap, or no free block is there, or the first is empty; without a wrap the lowest fitting block is taken and every live payload is untouched; null means none fits, and only the error count moves |
| `KernelHeap.KHeap.TakeFound` | mm/heap_c.c:79-112 | From the block found on: the heap stays valid unless the sum wraps and the first free block is not empty, and otherwise no list of blocks describes it; every live payload and the counters as for the whole call |
| `KernelHeap.KHeap.FindPlace` | mm/heap_c.c:149-155 | The list walk ends between the free blocks on either side |
| `KernelHeap.KHeap.Insert` | mm/heap_c.c:144-161 | The block joins the list in offset order and no other live block changes |
| `KernelHeap.KHeap.MergeBack` | mm/heap_c.c:160-169 | Two touching free blocks become one |
| `KernelHeap.KHeap.MergeFront` | mm/heap_c.c:172-180 | Two touching free blocks become one |
| `KernelHeap.KHeap.Release` | mm/heap_c.c:138-180 | The payload is poisoned, no two free blocks touch, and every other live payload is untouched |
| `KernelHeap.KHeap.KFree` | mm/heap_c.c:120-181 | A live block is released and a second free of it is turned away; a pointer turned away moves only the error count |
| `KernelHeap.KHeap.KRealloc` | mm/heap_c.c:183-202 | The first fitting block is taken and starts with as many old bytes as both sizes allow; the old block is released, if and only if it lies below 2 GiB; all others are untouched; it fails if and only if no free block fits, and then only the error count moves; every counter is exact |
| `KernelHeap.KHeap.CopyAndFree` | mm/heap_c.c:198-201 | The copy fills the fresh block and disturbs no live block, and then the old block is released unless kfree refuses it |
| `KernelHeap.LiveFreeable` | mm/heap_c.c:124-136 | A live pointer is turned away if and only if its header lies 2 GiB or more in |
| `HeapTheorems.AllFreeIsOneBlock` | mm/heap_c.c:147-180 | Once nothing is in use the region is one free block again |
| `HeapTheorems.FreeBytesMeaning` | mm/heap_c.c:104-105 | The free counter is the free payloads plus sixteen bytes for every block but one |
| `HeapTheorems.AllocationSafe` | mm/heap_c.c:67-112 | A block handed out is aligned, inside, apart from all others, and large enough if and only if the size is at most 0xFFFFFFE0 |
| `HeapTheorems.CarvedIs` | mm/heap_c.c:79-100 | Of the block taken a remainder of sixteen bytes or more is split off, and no other block moves |
| `HeapTheorems.SpareHeader` | mm/heap_c.c:73-79 | A free block serves a request only with room for one more header |
| `HeapTheorems.HugeRequestUnderserved` | mm/heap_c.c:71-88 | Asking for 0xFFFFFFF1 bytes hands out an empty block |
| `HeapTheorems.FreshHeapBroken` | mm/heap_c.c:71-104 | Asking a fresh 64-byte heap for 0xFFFFFFF0 leaves memory no list of blocks describes |
| `HeapTheorems.FreeUndoesAlloc` | mm/heap_c.c:67-181 | Freeing a block right after allocating it restores the block list exactly |
| `JournalLog.TrackedShape` | fs/ext4_journal.c:50-60 | The table holds distinct commit sequences of the log, all of them while there are at most 256 |
| `JournalLog.TrackedExactly` | fs/ext4_journal.c:50-60 | A sequence is in the table if and only if fewer than 256 distinct ones come before its first commit |
| `JournalLog.LargestIs` | fs/ext4_journal.c:50-60 | The remembered maximum bounds every commit sequence and is one of them, however many there are |
| `JournalReplay.MarkRevokes` | fs/ext4_journal.c:172-185 | Exactly the blocks a revoke record lists are marked |
| `JournalReplay.Recovery.NoteCommit` | fs/ext4_journal.c:50-60 | Table and maximum stay those of the commits seen so far |
| `JournalReplay.Recovery.WasCommitted` | fs/ext4_journal.c:62-67 | True if and only if the sequence is in the table |
| `JournalReplay.Recovery.PassOne` | fs/ext4_journal.c:160-186 | After the first pass table, maximum and bitmap are those of the whole log |
| `JournalReplay.Recovery.ApplyTags` | fs/ext4_journal.c:210-242 | A descriptor's tags are written out in order, revoked targets skipped, and the log itself is untouched |
| `JournalReplay.Recovery.ApplyAt` | fs/ext4_journal.c:194-244 | Only descriptors of remembered transactions are applied, and their contents are skipped over |
| `JournalReplay.Recovery.PassTwo` | fs/ext4_journal.c:193-245 | The loop ends despite moving its own counter, and its writes are exactly those the log calls for |
| `JournalReplay.Recovery.Reset` | fs/ext4_journal.c:260-289 | The journal is marked empty with the sequence after the largest commit, and then the recovery flag goes |
| `JournalReplay.Recovery.Replay` | fs/ext4_journal.c:86-258 | Succeeds if and only if there is nothing to do or the journal superblock's fields are in range; then every block of the disk is as `JournalEffect.Replayed` says, the writes issued, in order, are exactly the effects of one recovery, and the flag is gone; otherwise nothing changes |
| `JournalReplay.Recovery.ReplayLog` | fs/ext4_journal.c:160-248 | Both passes and the reset issue exactly those writes |
| `JournalBytes.TableIs` | fs/ext4_journal.c:50-67 | A sequence is remembered if and only if it has a commit record with fewer than 256 distinct sequences committing before its first one |
| `JournalBytes.RevokedIs` | fs/ext4_journal.c:172-185 | A block is skipped if and only if a revoke record lists it within the bytes it declares |
| `JournalBytes.TagsAre` | fs/ext4_journal.c:210-242 | Tag k is applied if and only if no tag up to it stops the loop; its target is the word at 12 plus k tag sizes, its content journal block i + 1 + k byte for byte, with the magic number in the first four bytes if and only if bit 0 of the flags is set |
| `JournalBytes.SuffixLast` | fs/ext4_journal.c:193-245 | The scan looks behind each descriptor's contents and never inside them, and the log's last entry for a block is the last applied tag to it |
| `JournalEffect.FindJobIs` | fs/ext4_journal.c:108-157 | Which log is recovered, by the fields of the inode and the journal superblock |
| `JournalEffect.RecoverReplays` | fs/ext4_journal.c:86-289 | After a recovery every block holds the content of the last applied tag to it, or what it held when there is none or it is revoked; the journal superblock differs in start and sequence only |
| `JournalEffect.CrashesReplay` | fs/ext4_journal.c:86-289 | The same after any number of interrupted attempts |
| `JournalReplay.ReplaySound` | fs/ext4_journal.c:193-245 | Every block written is a tag target of a descriptor with a commit record, and no revoke record of the log names it |
| `JournalReplay.TagsUpToStop` | fs/ext4_journal.c:213-242 | The tags applied are exactly those before the first stop, the flagged last tag being one |
| `JournalCrash.Absorbed` | fs/ext4_journal.c:193-245 | Repeating a list of writes after any part of it ends where the list alone ends |
| `JournalCrash.ResetTwice` | fs/ext4_journal.c:275-278 | Resetting a reset journal changes nothing |
| `JournalCrash.CrashSameEffects` | fs/ext4_journal.c:86-258 | A medium stopped before the last write still asks for exactly the same recovery |
| `JournalCrash.CrashThenRecover` | fs/ext4_journal.c:86-289 | Stopping after any number of writes, the reset's included, and recovering again ends with the medium of one uninterrupted recovery |
| `JournalCrash.ManyCrashes` | fs/ext4_journal.c:86-289 | The same for any number of interrupted attempts |
| `Crc32c.LookupIsFeed` | fs/ext4_csum.c:43-47 | One table step equals shifting the eight message bits in one at a time |
| `Crc32c.Chaining` | fs/ext4_csum.c:37-49 | A message in pieces, each result fed into the next call, gives the checksum of the whole |
| `Crc32c.BurstDetected` | fs/ext4_csum.c:37-49 | Any change confined to four adjacent bytes, anywhere in a message, changes the checksum |
| `Crc16.LookupIsFeed` | fs/ext4_csum.c:57-59 | One table step equals shifting the eight message bits in one at a time |
| `Crc16.Chaining` | fs/ext4_csum.c:51-61 | A message in pieces gives the checksum of the whole |
| `Crc16.PackedAtOnce` | fs/ext4_csum.c:51-61 | A message of at most two bytes gives sixteen, eight or no shifts of the seed mixed with its bytes |
| `Crc16.BitwiseOneToOne` | fs/ext4_csum.c:51-61 | Equal bytes never bring two different registers together |
| `Crc16.BurstDetected` | fs/ext4_csum.c:51-61 | Any change confined to two adjacent bytes, anywhere in a message, changes the checksum |
| `CrcPoly.Remainder16` | fs/ext4_csum.c:51-61 | The register after a message is the remainder of the message polynomial, the seed in front of it, by x^16 + x^12 + x^5 + 1 |
| `CrcPoly.Remainder32` | fs/ext4_csum.c:37-49 | The same for CRC32C and the polynomial of section 12.1 of RFC 3720 |
| `CrcPoly.RemainderUnique` | fs/ext4_csum.c:37-61 | There is only one remainder |
| `CrcPoly.OnlyRemainder16` | fs/ext4_csum.c:51-61 | The checksum is the only register with that remainder |
| `CrcPoly.OnlyRemainder32` | fs/ext4_csum.c:37-49 | The checksum is the only register with that remainder |
| `Csum.Entry32` | fs/ext4_csum.c:21-25 | The inner loop gives the register after eight shifts of the index |
| `Csum.Entry16` | fs/ext4_csum.c:27-32 | The inner loop gives the register after eight shifts of the index |
| `Csum.Checksums.BuildTables` | fs/ext4_csum.c:19-35 | Both tables hold the right entry for every index |
| `Csum.Checksums.Update32` | fs/ext4_csum.c:37-49 | For every seed and message the table loop computes the bit-by-bit CRC of section 12.1 of RFC 3720, the remainder of the message polynomial |
| `Csum.Checksums.Update16` | fs/ext4_csum.c:51-61 | For every seed and message the table loop computes the bit-by-bit CRC, the remainder of the message polynomial |
| `Divide.UDivMod` | lib/udivmod64.c:12-33 | For all 64-bit operands quotient and remainder are the true ones, the shift never overflows, and a zero divisor gives zeros |
| `InetChecksum.InetCsum` | net/stack.c:96-114 | For all 16-bit lengths the result is the complement of the ones'-complement sum of section 1 of RFC 1071, word by word |
| `InetChecksum.WordsAre` | net/stack.c:102-109 | Word k is bytes 2k and 2k + 1, the first one high, with zero for a missing last byte |
| `InetChecksum.PairsAre` | net/stack.c:102-103 | The same for the pseudo-header, whose odd last byte does not take part |
| `InetChecksum.CanonIs` | net/stack.c:111-112 | The folded sum is the remainder by 65535, with 65535 for a nonzero multiple |
| `InetChecksum.NoOverflow` | net/stack.c:100-109 | The 32-bit accumulator cannot wrap |
| `InetChecksum.OnesSumIsCanon` | net/stack.c:102-112 | Adding plainly and folding at the end equals end-around carry at every word |
| `InetChecksum.FoldStep` | net/stack.c:111-112 | One fold keeps the ones'-complement value and makes the sum smaller |
| `InetChecksum.SelfVerifies` | net/stack.c:260-273 | A message carrying its own checksum in the zeroed field checks to zero |
| `InetChecksum.EchoReply` | net/stack.c:246-273 | A reply is made if and only if the message is an echo request; it differs from it in type and checksum only, and checks to zero |

## Left out

- Directory.Dir: models the unindexed blocks a directory maps, in order; holes, htree blocks and the second pass of the insertion, which appends a block, are not part of it.
- Driver.FlipFrees: stated for blocks that are no metadata; `Driver.FreeKeepsValidIff` covers the rest.
- DirMap.RunRefinesMap: stated for runs that add no bound name; `DirMap.RunCountsNames` covers all runs.
- Directory.InsertBinds: assumes names without NUL bytes and records that are live only with a valid name, as the driver writes them; blocks that stop the scan early are not modelled.
- Paths.ResolveFull: reading an inode and testing it for a directory are parameters, together with the lookup.
- ReadWrite.ReadLoop: extent-mapped files only; `indirect_lookup` does not match the trees the rest of the driver frees.
- ReadWrite.DoReplace: the data buffer is padded to whole blocks and the length stays a block below 2^32, as its callers see to.
- Files.AppendBlocks: the blocks of a failed append stay allocated, as in the code; the run array is assumed to be allocated.
- Files.FreeExtentTree: a deeper root that claims more than four entries and a larger maximum is excluded, as the loop would read past the inode.
- KernelHeap.KHeap.KMalloc: models a 32-bit `size_t`; the header sum of a 64-bit build, which does not wrap, is not part of it.
- KernelHeap.KHeap.KFree: a pointer at bytes that merely look like a used header is excluded.
- KernelHeap.KHeap.KRealloc: sizes above 0xFFFFFFE0 are excluded, as the copy would exceed the block handed out.
- JournalReplay.Recovery.ApplyTags: tag targets avoid the journal, its inode's block and the superblock.
- JournalReplay.Recovery.ApplyAt: as for `ApplyTags`.
- JournalReplay.Recovery.PassTwo: as for `ApplyTags`.
- JournalReplay.Recovery.Replay: the journal inode is inline, tag targets avoid the journal, its inode's block and the superblock; the superblock is modelled by its recovery flag only.
- InetChecksum.EchoReply: messages of at most 1500 bytes, the size of its buffer; the copied IP header is not modelled.
- Block I/O inside the volume succeeds, the volume is mounted and writable, metadata checksums are off, and groups have fewer than 65536 blocks; with 64-bit block numbers descriptors have 64 bytes or more.
- Inode allocation and release (`e4_alloc_inode`, `e4_free_inode`): a second bitmap allocator over the same descriptors.
- Mounting, feature checks, the superblock's own bytes, `kzalloc`, listing and unlinking.
- The Rust heap backend, the ramfs, ARP, TCP and IPv4, device drivers, boot code and user interface.
- Update in place of scratch buffers is modelled where the driver passes data through them; aliasing between them is not.
