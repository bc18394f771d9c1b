# Block life cycle of the ext2 driver and its tools

A Dafny model of how an ext2 volume's blocks are laid out, allocated, linked into files, freed and checked,
with proofs about it. It covers the kernel extension's allocator, block map, truncation and directory code, the
block accounting of fsck_ext2fs, and the group layout of newfs_ext2fs.

The parts share one invariant. Its first half: a group's free counts, of blocks and of inodes, are the numbers of
clear bits in its bitmaps, and the totals are the sums over the groups. Its second half: every block a file holds
has its bit set and is held once.

- newfs and pass 5 of fsck establish the first half (`Newfs.MakeGroups`, `Lifecycle.NewVolume`, `Pass5.CheckCounts`). The
  allocators keep it one call at a time (`GroupAllocator`, `InodeAllocator`), and under any interleaving of threads
  that pass files to each other (`AllocProtocol`, started from such a volume by `Lifecycle.MountedStarts`).
- newfs establishes the second half for the directories it makes, fsck for every file on a volume without duplicate
  blocks, provided that it recorded all references of the inodes it clears (`Lifecycle.CheckedVolume`). Writing and
  truncating files keep it at every single write to the device (`FileBlocks`, `FileWrites`).

## How it is modelled

- **Block map** (`BlockPath`, `BlockTree`, `FileTree`, `DiskStates`, `FileRoots`, `FileGrowth`, `FileBlocks`,
  `FileWrites`, `BlockMap`, `BlockWalk`). The device holds pointer blocks, a set of blocks in use and the on-disk
  inode; `Abs` reads a tree out of it, and `Trunc` and `Grow` say what truncation and allocation make of a tree.
  The methods of class `FileBlocks.File` change the device only through primitives that write one pointer block,
  write the inode, or change one bitmap bit. After each primitive the ghost monitor `alwaysSafe` looks at the device: it
  stays true as long as no state so far had a pointer, reachable from the on-disk inode, to a block that is free
  or reached twice. The methods prove that it does.
- **Allocator** (`Bitmap`, `GroupAllocator`, `InodeAllocator`, `AllocProtocol`, `ClusterSummary`). Bitmaps are bytes.
  The protocol is a state machine over the single steps of any number of threads, with the mount lock and one owner
  per bitmap buffer. A thread frees blocks that are in its hands; from the start these are the blocks of the
  files it works on, and a step hands a block to another thread.
- **Directories** (`DirBlock`, `Directory`). Records are read from and moved within an array of bytes. An offset in
  a directory is a block number and an offset in that block.
- **fsck and newfs** (`FsckBlocks`, `FsckInodes`, `Propagate`, `BufferPool`, `Pass5`, `Newfs`, `NewfsSizes`,
  `Lifecycle`). Linked lists and the buffer list are sequences; the tree of directories keeps its three threading
  pointers. What the user answers, and which inodes fail the link counts of pass 4, are inputs, so statements about
  the passes hold for all answers.
- `Arith` and `Options` hold what the others share.

## What has to hold

These conditions come from the code, and the statements below are made under them:

- Fragments are blocks (`fsize == bsize`) and a group's bitmap fills one block (`fpg == bpg == 8 * bsize`); inodes
  per group are a multiple of 8; a volume whose first data block is 0 has block 0 in use. The allocator answers
  0 for "no block", so a free block 0 would be lost.
- No I/O errors, except that writing the data of a file may fail. Block numbers fit their 32-bit types. Writes that the code asks to be synchronous are, and so
  are writes of bitmaps.
- The layouts newfs makes are those in which no group is smaller than its overhead, and whose inodes per group
  include the reserved ones and fit one bitmap block. newfs computes both and checks neither; when they hold is
  the subject of `NewfsSizes`.

## Where the code does less than it seems to

Each of these is stated with the condition under which the property does hold.

- The first call of ext2_clusteracct for a group scans a bitmap in which the bit has already changed, and then
  applies the change on top of the scan. The histogram stays off by that change, except when the bit extends a
  run that is at the cap already, on one side only (`ClusterSummary.FirstCallSkew`).
- ext2_balloc panics on a direct block that is there but lies behind an end of the file on a block boundary, whatever
  size is asked for, and exactly then (`FileBlocks.FragmentGrows`, `FileBlocks.File.Balloc`). A write that fails
  leaves such blocks: it keeps what it allocated and does not move the end. After a two-block write to an empty
  file that runs out of space after the first block, the next write to that block panics
  (`FileWrites.FailedWriteSticks`); truncating to the size the file already has does not help
  (`FileWrites.StaysStuck`), shortening a file does (`FileBlocks.File.Shorten`).
- pass5 sets the bits of inode numbers behind the last inode without taking them off the free count. What it leaves
  satisfies the inode allocator's invariant if and only if no group has such numbers (`Pass5.InodesOkWhen`,
  `Pass5.SurplusCount`, `Pass5.SurplusExample`).
- Pass 1 of fsck does not walk an inode it rejects as unknown. If the user keeps it, pass 4 may clear it all the same,
  and takes back references nobody recorded: a block of another file loses its bit, and pass 5 writes it as free
  (`FsckInodes.RejectedExample`). If it stays, its own blocks have no bits. The bits are right for a block in use
  exactly when more references to it are recorded than are taken back unrecorded (`FsckBlocks.BitRightWhen`), and
  right whatever is answered in pass 4 exactly when no rejected inode that refers to blocks was kept in pass 1
  (`FsckBlocks.AlwaysRight`). The same goes for the references an inode has beyond MAXDUP or MAXBAD.
- The files that a failed write leaves with a block behind their end are such inodes (`FsckInodes.StuckFileRejected`);
  files that were truncated are not (`FsckInodes.TruncatedAccepted`).
- checkinode lets through an indirect pointer that lies behind the end of the file, in two cases
  (`FsckInodes.AllowedBeyond`); what hangs below it is not walked.
- pass1b does not visit the last inode, because it counts inodes from 0 (`FsckBlocks.CheckVolume` says what it
  reports for any number of inodes visited).
- chkrange lets block number 0xffffffff through, because adding one to it wraps to 0
  (`FsckBlocks.LastNumberGetsThrough`).
- newfs drops a last group that is too small for its inode table, and gives its inodes to the others without looking
  at the sizes again: a table can become larger than a group (`NewfsSizes.TableTooLarge`). When it drops the only
  group it divides by 0 (`NewfsSizes.NoGroupLeft`). What it chooses can be laid out if and only if the inodes of a
  group fit one block of bits and group 0 has room for its overhead (`NewfsSizes.GroupZeroDecides`); the second is
  implied on volumes whose descriptors fit one block of pointers (`NewfsSizes.InodesDecide`).
- newfs reserves group descriptor blocks for growing the volume that pass 1 of fsck does not mark
  (`Newfs.MarksAreOverhead`).
- allocblk never hands out the last block of the volume (`FsckBlocks.Checker.AllocBlk`).
- The search for eight clear bits leaves out the end of the map in its first pass. It finds such a run exactly when
  one lies in what it looks at (`GroupAllocator.RunSearch`, `GroupAllocator.MissedRun`); the single-bit search that
  follows finds any clear bit (`GroupAllocator.MapSearch`).
- The inode search would miss the last byte of a group that does not end with a byte, and panic, for some preferences
  (`InodeAllocator.SeesNothingWhen`); none of its callers gives one (`InodeAllocator.Allocator.NeverMisses`).

## Model

| member | source | states |
|---|---|---|
| BlockPath.GetLbns | kext/ext2_bmap.c:390-469 | the two loops compute that path |
| BlockPath.DataPath | kext/ext2_bmap.c:417-433 | a data block's offsets are below the pointers per block and recompose to its number; EFBIG exactly from 12 + n + n^2 + n^3 on |
| BlockPath.PathsDistinct | kext/ext2_bmap.c:390-469 | different block numbers have different paths |
| BlockPath.MetaRoots | kext/ext2_inode.c:301-303 | the numbers truncation gives the three indirect blocks of the inode are those of the path |
| BlockPath.MetaStep | kext/ext2_bmap.c:456-464 | stepping down from one indirect block to the next by its offset gives the number the path has there |
| BlockPath.MetaRetraces | kext/ext2_bmap.c:437-469 | looking up the number of a pointer block on a path retraces the path and stops there |
| BlockPath.MaxFileSizeHasPath | kext/ext2_vfsops.c:966-989 | every byte below e2fs_maxfilesize has a path, for all block sizes; with large_file no other byte has one whose place i_blocks could count |
| BlockTree.TruncLookup | kext/ext2_inode.c:405-508 | truncating a tree keeps every mapping up to the last block kept and makes every later one a hole |
| BlockTree.GrowLookup | kext/ext2_balloc.c:238-424 | filling a path changes no other mapping, and maps the wanted block exactly when the path is complete |
| BlockTree.GrowBlocks | kext/ext2_balloc.c:238-424 | the tree holds exactly the blocks handed in, in addition |
| BlockTree.AbsFrame | kext/ext2_balloc.c:288-320 | a tree depends only on the contents of its own blocks |
| FileTree.KidHangs | kext/ext2_inode.c:483-501 | a subtree of one place in the file is again one place in it: rewriting it changes nothing else the file holds |
| DiskStates.CutSoundLinked | kext/ext2_inode.c:455-471 | zeroing the tail of a reachable pointer block leaves the disk sound, with nothing of that tail reachable |
| DiskStates.AfterCutTail | kext/ext2_inode.c:455-490 | cutting a pointer block and freeing what was cut leaves the cut tree and gives up exactly its blocks |
| FileRoots.TruncRootsLookup | kext/ext2_inode.c:238-392 | truncating a file keeps every mapping up to the last block and makes every later one a hole, over all fifteen pointers |
| FileGrowth.GrowRootsLookup | kext/ext2_balloc.c:124-424 | allocation changes the mapping of the requested block at most |
| FileGrowth.GrowThenCutLookup | kext/ext2_inode.c:205-392 | shortening to inside a block: the partial last block may appear, earlier mappings stay, later ones are holes |
| FileGrowth.LinkGrown | kext/ext2_balloc.c:325-356 | linking a zeroed block into an empty pointer of the path extends the file by that block and keeps it sound |
| FileGrowth.BehindSafe | kext/ext2_inode.c:70-117 | an on-disk inode that only lacks pointers of a sound in-core inode is sound |
| FileBlocks.File.FreePointer | kext/ext2_inode.c:475-490 | everything behind an unreachable pointer is freed, each block once, and counted |
| FileBlocks.File.IndirTrunc | kext/ext2_inode.c:405-508 | the tree of an indirect block becomes the truncated one; exactly the blocks it lost are freed, each once, and the count is theirs; every step is safe |
| FileBlocks.File.CutTail | kext/ext2_inode.c:455-490 | pointers are zeroed on the disk before anything behind them is freed |
| FileBlocks.File.CutInode | kext/ext2_inode.c:244-283 | the inode without the pointers that do not survive is written first; afterwards nothing behind them is reachable |
| FileBlocks.File.Release | kext/ext2_inode.c:298-356 | the file becomes the truncated one, and the count released is that of exactly the blocks freed |
| FileBlocks.File.Balloc | kext/ext2_balloc.c:124-424 | the block is mapped, or the call fails as too far, or panics, exactly when the block is stuck behind the end, or fails for want of space, exactly when there is less room than blocks lack on the way; the file gains exactly fresh blocks on that way, everything else stays, and i_blocks follows |
| FileBlocks.File.BallocDirect | kext/ext2_balloc.c:155-219 | the direct case; it panics exactly when the block is there, i_size is a multiple of the block size, and the block lies behind the last one; nothing has changed then |
| FileBlocks.FragmentGrows | kext/ext2_balloc.c:180-203 | the test before that panic is true of exactly those blocks, for every size asked for |
| FileBlocks.File.BallocIndirect | kext/ext2_balloc.c:245-424 | the walk down the path, which adds what is missing level by level |
| FileBlocks.File.Take | kext/ext2_balloc.c:254-285 | a block taken for pointers is zero on the disk before anything names it |
| FileBlocks.File.Lengthen | kext/ext2_inode.c:165-197 | the last block of the longer file is allocated; EFBIG exactly beyond the largest size, else the panic exactly when that block is stuck, and no space exactly when there is too little for what lacks on its way |
| FileBlocks.File.Shorten | kext/ext2_inode.c:198-392 | a partial last block is allocated first, then everything behind it is cut and freed; the accounting stays exact, the panic is out of reach, and no direct block is left behind the end |
| FileBlocks.File.Truncate | kext/ext2_inode.c:123-392 | all cases: EINVAL and EFBIG change nothing, then the same length, longer, shorter, and running out of space on the way, exactly when too little is left; the file stays sound and counted and no step was unsafe; it panics exactly when it lengthens the file to a stuck block |
| FileBlocks.LastBlockMeans | kext/ext2_inode.c:177-182 | the last block of a file begins inside it, and the file does not go on behind it |
| FileWrites.FilledOneMore | kext/ext2_readwrite.c:259-274 | one more block fills the next hole of the range and no other mapping changes; blocks on the way to it change none |
| FileWrites.ExtendAlloc | kext/ext2_readwrite.c:247-277 | every block of the range is there afterwards, those there before unchanged, or the call stopped at the first one without space or stuck, and everything before it is there |
| FileWrites.RangeBlocks | kext/ext2_readwrite.c:255-259 | the blocks of the range are those of its bytes |
| FileWrites.Write | kext/ext2_readwrite.c:282-360 | EINVAL and EFBIG exactly when the range starts below zero or ends too far; the size grows exactly on success; the write stops for want of space only when the volume is full and a block lacks; it keeps the blocks it got, and the file is sound and counted on every path; it panics exactly when it comes to a stuck block; a synchronous one leaves the inode on the disk |
| FileWrites.FailedWriteSticks | kext/ext2_readwrite.c:317-325 | an empty file, two blocks: the write succeeds or runs out of space at block 0 or 1; if at block 1, the first block stays and the next write panics |
| FileWrites.StaysStuck | kext/ext2_inode.c:161-164 | truncating to nothing before does not help |
| FileWrites.StuckFile | kext/ext2_balloc.c:195-201 | a file that is sound, counted and stuck exists |
| BlockMap.BmapArray | kext/ext2_bmap.c:235-378 | the block found is the one the file maps; the run is one, and stops only at the limit, at the end of the pointer array or where the steps end |
| BlockMap.PathNext | kext/ext2_bmap.c:349-356 | going on within a pointer block changes the last offset only |
| BlockMap.ArrayEnds | kext/ext2_bmap.c:349-356 | where the pointer array of a block ends |
| BlockMap.BlockMapRange | kext/ext2_bmap.c:71-134 | every byte of the range is at consecutive device positions, where the block map puts it one block at a time; the range ends with the request or the file, or else at a block boundary, because the limit is reached, the pointer array ends, or the next block lies elsewhere |
| BlockWalk.IBlock | fs/fsck_ext2fs/inode.c:200-279 | the blocks visited below an indirect pointer, in order |
| BlockWalk.CkInode | fs/fsck_ext2fs/inode.c:115-197 | the blocks visited of a whole inode, with the 64-bit arithmetic of the remaining size |
| BlockWalk.RefsInOrder | fs/fsck_ext2fs/inode.c:239-262 | an indirect block is visited before what lies below it, and its pointers one after the other |
| BlockWalk.MetExactly | fs/fsck_ext2fs/inode.c:165-197 | a block is visited exactly when it is a direct one, begins inside the file, or lies below an indirect pointer that leads behind the end only, where the remaining size wraps |
| BlockWalk.FileComplete | fs/fsck_ext2fs/inode.c:115-279 | the walk meets every block a file holds, as often as it holds it, exactly when every tree fits the remaining size |
| BlockWalk.FitsExactly | fs/fsck_ext2fs/inode.c:165-279 | that is so exactly when below each indirect pointer nothing hangs behind the end, or all of it does |
| BlockWalk.TruncatedFits | fs/fsck_ext2fs/inode.c:215-222 | files truncated by the kernel are of that kind |
| BlockWalk.TruncatedCounted | kext/ext2_inode.c:238-392 | so fsck meets exactly the blocks a truncated file still holds |
| Bitmap.SetBit | kext/ext2_alloc.c:610 | setting a bit of the bytes changes that bit alone |
| Bitmap.ClearBit | kext/ext2_alloc.c:840 | clearing a bit of the bytes changes that bit alone |
| Bitmap.Ffs | kext/ext2_alloc.c:573 | the lowest bit set of a byte |
| Bitmap.Fls | include/fs/ext2fs/ext2_apple.h:154-157 | the highest bit set of a byte |
| Bitmap.SetCounts | kext/ext2_alloc.c:610-614 | taking a free bit takes one from the number of clear bits |
| Bitmap.ClearCounts | kext/ext2_alloc.c:840-844 | giving back a set bit adds one |
| GroupAllocator.GroupRoundTrip | include/fs/ext2fs/fs.h:124-127 | the block number handed out names the same group and bit |
| GroupAllocator.RunSearch | kext/ext2_alloc.c:536-588 | the first run of eight clear bits from the start byte on, or the first of all; none is found exactly when there is none in the parts of the map it looks at |
| GroupAllocator.ScanByte | kext/ext2_alloc.c:545-587 | one byte: the run goes on, ends in time or starts again at the high clear bits, and none is passed over; the one found is the first |
| GroupAllocator.MissedRun | kext/ext2_alloc.c:540 | a run that the bound of the first pass leaves out |
| GroupAllocator.GiveUndoesTake | kext/ext2_alloc.c:840-844 | freeing a block just allocated restores bitmap and counts, and the other way round |
| GroupAllocator.TookOne | kext/ext2_alloc.c:610-617 | taking a block keeps the invariant of the whole volume and makes that block, and no other, not free |
| GroupAllocator.GaveOne | kext/ext2_alloc.c:840-848 | giving one back keeps it too and makes that block, and no other, free |
| GroupAllocator.MapSearch | kext/ext2_alloc.c:907-935 | the first clear bit from the start byte on, going round, whenever there is one: the corrupted-map panic is out of reach |
| GroupAllocator.Allocator.FindBit | kext/ext2_alloc.c:513-594 | the preferred bit of the group if it is clear, else the start of eight clear ones if the search comes across any, else the next clear one |
| GroupAllocator.Allocator.AllocCg | kext/ext2_alloc.c:484-619 | exactly that block of the group is taken and counted, or the group is full; the lock is held afterwards only in the second case |
| GroupAllocator.Allocator.HashAlloc | kext/ext2_alloc.c:434-476 | gives up only when every group is full, for any number of groups and any start; else the block is in the first group with free blocks among the first one, those 1, 3, 7 and so on behind it, and all others in turn |
| GroupAllocator.Allocator.Alloc | kext/ext2_alloc.c:85-133 | the superuser is refused exactly when every group is full, others also below the reserve; the lock is released on every path; the block is in the group of the preferred one, in use or not, or without a preference on the volume in that of the inode, as long as that has free blocks, else where the probe finds the first; there the preferred one if it is free; all else stays |
| GroupAllocator.StartByte | kext/ext2_alloc.c:535-539 | the search starts at the byte of the preferred place, or of the place before it when blocks count from 1 |
| GroupAllocator.Allocator.BlkFree | kext/ext2_alloc.c:808-848 | the block's bit and both counts change, nothing else; a block behind the end changes nothing |
| InodeAllocator.Search | kext/ext2_alloc.c:773-790 | the first clear bit from the preferred byte on, going round; none exactly when every byte looked at is full |
| InodeAllocator.SeesNothingWhen | kext/ext2_alloc.c:773-787 | when that search misses the free inodes there are: exactly when the group ends inside a byte, at or below the preferred place in its byte, and only that byte has free ones |
| InodeAllocator.MissedInodes | kext/ext2_alloc.c:774 | a group of twelve inodes in which it does |
| InodeAllocator.Allocator.NeverMisses | kext/ext2_alloc.c:200-201 | the preferences the code gives never lead there |
| InodeAllocator.Allocator.NodeAllocCg | kext/ext2_alloc.c:735-806 | the preferred inode of the group if it is free, else the next free one from its byte on, is taken and counted, as a directory if it is one; the corrupted-map panic is reached exactly when the search misses the free ones |
| InodeAllocator.Allocator.VFree | kext/ext2_alloc.c:854-901 | the bit and the counts change, nothing else; freeing a free inode or one out of range panics; no directory count goes below zero |
| InodeAllocator.GiveUndoesTake | kext/ext2_alloc.c:854-901 | freeing an inode just allocated restores bitmap and counts, and the other way round |
| InodeAllocator.InoRoundTrip | kext/ext2_alloc.c:805 | the inode number handed out names the same group and bit |
| InodeAllocator.Allocator.constructor | kext/ext2_vfsops.c:953-956 | the total number of directories, which is not on the disk, is computed so that the counts newfs or fsck left are the ones the allocator starts with |
| AllocProtocol.StepInv | kext/ext2_alloc.c:484-619 | every step of every thread keeps the invariant, handing a block to another thread included |
| AllocProtocol.RunInv | kext/ext2_alloc.c:484-619 | so does every run, however the threads interleave and whoever frees what another allocated |
| AllocProtocol.NeverHandedOutTwice | kext/ext2_alloc.c:521-619 | no block is in two threads' hands, and none in hand is free |
| AllocProtocol.NothingLost | kext/ext2_alloc.c:484-619 | over any run no block is lost and none appears: free or in somebody's hands, the blocks are the same |
| AllocProtocol.CountsMatch | kext/ext2_alloc.c:610-617 | a group's count is its clear bits whenever its buffer is free, and the volume's count is their sum whenever the lock is free |
| AllocProtocol.WaitsWithoutLock | kext/ext2_alloc.c:500-503 | no thread waits for a buffer while it holds the mount lock |
| AllocProtocol.NoPanic | kext/ext2_alloc.c:834-838 | no count goes below zero, a thread with a positive count finds a clear bit, and no free block is freed |
| AllocProtocol.NoDeadlock | kext/ext2_alloc.c:484-619 | while some thread is at work, some thread that is at work can go on |
| ClusterSummary.RunsCount | kext/ext2_subr.c:167-194 | the histogram counts the maximal free runs of each capped length |
| ClusterSummary.DeltaIsChange | kext/ext2_subr.c:236-248 | the local update is the difference of two full scans |
| ClusterSummary.LongestRun | kext/ext2_subr.c:250-255 | some run counted is at least k long exactly when k clear bits in a row exist |
| ClusterSummary.FirstCallSkew | kext/ext2_subr.c:166-195 | when the first call leaves a right histogram, and when not |
| ClusterSummary.Summary.InitScan | kext/ext2_subr.c:167-194 | the scan yields the histogram of the map |
| ClusterSummary.Summary.ClusterAcct | kext/ext2_subr.c:160-256 | a right histogram stays right; an uninitialised one ends up off by the change; maxcluster is the largest length with a positive count, and with a right histogram the capped length of the longest free run |
| DirBlock.Enter | kext/ext2_lookup.c:886-925 | compaction keeps every live entry of the range, in order, adds the new one with all the free space behind it, tiles the range again and changes nothing outside; neither panic is reached |
| DirBlock.Finish | kext/ext2_lookup.c:892-899 | first half of a round: a live record is trimmed and joins what is packed, a free one is dropped |
| DirBlock.Copied | kext/ext2_lookup.c:900-903 | second half: the next record is copied behind what is packed, and the space before it is accounted for |
| DirBlock.RemoveFirst | kext/ext2_lookup.c:957-968 | the first record of a block is freed and everything else in it stays |
| DirBlock.RemoveLater | kext/ext2_lookup.c:970-991 | a later record is merged into the one before it and everything else stays |
| Directory.NoteKeeps | kext/ext2_lookup.c:446-473 | what the search records of free space, and which slot it has chosen, stays right from record to record |
| Directory.NoneMeansFull | kext/ext2_lookup.c:537-547 | no slot is found exactly when no block has enough free space in all |
| Directory.Search | kext/ext2_lookup.c:402-507 | the loop meets the name or every record, and keeps track of slots and of the last live entry |
| Directory.Directory.FindSlot | kext/ext2_lookup.c:387-580 | the search for creation: the slot chosen, and exactly how many blocks there are up to the last one in use |
| Directory.Directory.Lookup | kext/ext2_lookup.c:387-520 | finds a name exactly when the directory has it, whatever is cached in i_diroff, and caches the block it is in |
| Directory.Directory.Create | kext/ext2_lookup.c:807-935 | the name is added to the map unless it is taken; no two entries ever have one name; the entry goes to the first record with enough room, else to the first block with enough in all, compacted, else to a new block, exactly when no block has room; the other blocks stay, and the directory is cut behind the last block in use |
| Directory.Directory.CutBehind | kext/ext2_lookup.c:933-935 | exactly the blocks behind i_endoff go, and no live entry with them |
| Directory.Directory.Remove | kext/ext2_lookup.c:951-992 | exactly the named entry is dropped from the map, and one block changes |
| FsckBlocks.ChkRangeRejects | fs/fsck_ext2fs/inode.c:286-324 | one block is rejected exactly behind the end of the volume, with the last 32-bit number as the only exception |
| FsckBlocks.LastNumberGetsThrough | fs/fsck_ext2fs/inode.c:291 | that exception |
| FsckBlocks.Checker.Pass1Check | fs/fsck_ext2fs/pass1.c:295-360 | the reference is recorded, in the bitmap or in the list, unless a limit is hit or the block is bad |
| FsckBlocks.Checker.Pass1Inode | fs/fsck_ext2fs/pass1.c:265-360 | the references of one inode are recorded up to the eleventh to no block of the volume, or the eleventh to a block referred to before |
| FsckBlocks.Checker.AddDup | fs/fsck_ext2fs/pass1.c:337-352 | the first part of the list holds each duplicate once, the rest only repeats them |
| FsckBlocks.Checker.Pass4Check | fs/fsck_ext2fs/pass4.c:107-134 | one reference is taken back if one is recorded; one that is not changes nothing, and it never looks at who made it |
| FsckBlocks.Checker.AllocBlk | fs/fsck_ext2fs/utilities.c:346-360 | the first free block but the last one of the volume |
| FsckBlocks.Checker.FreeBlk | fs/fsck_ext2fs/utilities.c:364-372 | takes back one reference |
| FsckBlocks.Checker.Pass1bCheck | fs/fsck_ext2fs/pass1b.c:74-97 | a duplicate met for the first time is reported and moved to those met; STOP exactly when none is left; what is recorded stays the same |
| FsckBlocks.Checker.Pass1b | fs/fsck_ext2fs/pass1b.c:46-72 | exactly the first reference of the walk to each block recorded more than once is reported; the first part of the list is only permuted, and what is recorded stays the same |
| FsckBlocks.WalkOfMeets | fs/fsck_ext2fs/pass1b.c:56-71 | its walk comes to the references of the inodes in use, walked by pass 1 or not, in order |
| FsckBlocks.CheckVolume | fs/fsck_ext2fs/pass1.c:55-118 | passes 1, 1b and 4 on any run: a bit is set exactly for the references recorded less those taken back; those are the ones of the inodes that stay, less the references of cleared inodes that had not been recorded; reported are exactly the first references to duplicates |
| FsckBlocks.AddsUp | fs/fsck_ext2fs/pass4.c:107-134 | recording and taking back in any order come to that difference |
| FsckBlocks.BitRightWhen | fs/fsck_ext2fs/pass4.c:107-134 | when the bit of a block says whether somebody who stays uses it |
| FsckBlocks.RightIfRecorded | fs/fsck_ext2fs/pass1.c:295-360 | it does if all references to the block were recorded |
| FsckBlocks.OnlyRecordLost | fs/fsck_ext2fs/inode.c:508-527 | a block recorded once loses its bit when an inode that refers to it without record is cleared |
| FsckBlocks.NeverRecorded | fs/fsck_ext2fs/pass1.c:284-292 | a block that only inodes kept without a walk refer to has no bit |
| FsckBlocks.AlwaysRight | fs/fsck_ext2fs/pass1.c:284-292 | all bits are right for all choices of inodes to clear, if and only if no unknown inode was left that refers to a block of the volume |
| FsckBlocks.NoneTwice | fs/fsck_ext2fs/pass1.c:320-352 | with no duplicate in the list no inode that stays refers to a block twice or to one of the file system |
| FsckBlocks.NoneShared | fs/fsck_ext2fs/pass1.c:320-352 | and no two of them to the same block |
| FsckInodes.Accepts | fs/fsck_ext2fs/pass1.c:185-244 | the inodes pass 1 walks: those of a known type whose size does not wrap and whose pointers all may be used by a file of that size, with the faked count of short links |
| FsckInodes.Levels | fs/fsck_ext2fs/pass1.c:232-233 | how many indirect pointers the division loop allows |
| FsckInodes.LinkAllowed | fs/fsck_ext2fs/pass1.c:207-219 | a short link may use as many pointers as its text has words |
| FsckInodes.DeviceAllowed | fs/fsck_ext2fs/pass1.c:205-206 | an empty device file may use its first pointer |
| FsckInodes.AllowedBeyond | fs/fsck_ext2fs/pass1.c:224-243 | every pointer a file of that size needs is allowed, and the two cases in which another one is |
| FsckInodes.StuckRejected | fs/fsck_ext2fs/pass1.c:224-231 | an accepted file has no direct block behind its end |
| FsckInodes.StuckFileRejected | fs/fsck_ext2fs/pass1.c:224-231 | so the files in which a block is stuck are rejected |
| FsckInodes.TruncatedAccepted | fs/fsck_ext2fs/pass1.c:185-244 | whatever the kernel truncated is accepted, and walked completely |
| FsckInodes.CheckInode | fs/fsck_ext2fs/pass1.c:120-292 | the state of an inode after pass 1, and whether it is walked |
| FsckInodes.EventsKeep | fs/fsck_ext2fs/pass2.c:361-399 | complaints about blocks, spared entries and found directories bring no inode into use or out of it, and keep directories directories |
| FsckInodes.RejectedExample | fs/fsck_ext2fs/pass4.c:93-94 | how a file loses a block to an inode that pass 1 rejected |
| Propagate.FoundIsConnected | fs/fsck_ext2fs/dir.c:92-101 | the walk, which goes down from a directory only if the head of its children is in DSTATE, reaches exactly the directories whose chain of parents ends at the root |
| Propagate.EntriesMakeTable | fs/fsck_ext2fs/pass2.c:353-399 | whatever the directories contain, pass 2 gives a parent only to directories in DSTATE |
| Propagate.FreshTable | fs/fsck_ext2fs/inode.c:446-450 | it starts with such a table |
| Propagate.Directories.LinkChildren | fs/fsck_ext2fs/dir.c:81-90 | the lists of children, each from the last child to the first |
| Propagate.Directories.Propagate | fs/fsck_ext2fs/dir.c:72-101 | after pass 2, marks exactly the directories connected to the root and changes no other, with any cycles of parents, in at most 2 n + 1 rounds |
| BufferPool.Pool.GetDataBlk | fs/fsck_ext2fs/utilities.c:152-178 | the buffer returned holds what a plain disk would; only an unused buffer loses its block, and of those the one used least recently; the buffer comes to the front |
| BufferPool.Pool.GetBlk | fs/fsck_ext2fs/utilities.c:180-193 | a dirty buffer, and no other, is written before it is used for another block; a buffer that holds the block already stays as it is |
| BufferPool.Pool.Change | fs/fsck_ext2fs/fsck.h:79 | a change marked dirty is the plain disk's change |
| BufferPool.Pool.CkFini | fs/fsck_ext2fs/utilities.c:250-256 | the last loop leaves the disk equal to the plain one |
| Pass5.CheckCounts | fs/fsck_ext2fs/pass5.c:74-222 | accepted corrections establish the invariant of the block allocator, and that of the inode allocator, free counts, directory counts and totals included, exactly when no group has surplus inode numbers |
| Pass5.BlocksOfGroup | fs/fsck_ext2fs/pass5.c:147-161 | the block bitmap and free count of one group |
| Pass5.InodesOfGroup | fs/fsck_ext2fs/pass5.c:107-145 | the inode bitmap of one group, the number of its directories, and by how much its free count exceeds the clear bits |
| Pass5.SurplusCount | fs/fsck_ext2fs/pass5.c:115-118 | when that excess is none |
| Pass5.NoSurplus | fs/fsck_ext2fs/pass5.c:107-118 | it is none when the groups are full of inodes |
| Pass5.FullGroups | fs/fsck_ext2fs/pass5.c:107-118 | so a volume with all its inodes has none in any group |
| Pass5.InodesOkWhen | fs/fsck_ext2fs/pass5.c:107-145 | the rebuilt inode counts are those of the rebuilt bitmaps exactly when there is none |
| Pass5.SurplusExample | fs/fsck_ext2fs/pass5.c:115-118 | it need not be none otherwise |
| Newfs.CgHasSb | kext/ext2_alloc.c:950-963 | groups 0 and 1 and the powers of 3, 5 and 7 |
| Newfs.InitBlockMap | fs/newfs_ext2fs/mke2fs.c:709-727 | exactly the overhead and what is behind the end are in use |
| Newfs.NewMapCount | fs/newfs_ext2fs/mke2fs.c:508-514 | the free count of a descriptor is the clear bits exactly when the overhead fits the group |
| Newfs.MakeGroups | fs/newfs_ext2fs/mke2fs.c:487-524 | descriptors, superblock totals and bitmaps satisfy the invariants of both allocators, with no directories yet |
| Newfs.InitInodeMap | fs/newfs_ext2fs/mke2fs.c:729-746 | the inode bitmap of a new group matches its free count |
| Newfs.AllocFirst | fs/newfs_ext2fs/mke2fs.c:1242-1301 | the first free block of group 0 is taken, or there is none; the invariant stays |
| Newfs.AllocMany | fs/newfs_ext2fs/mke2fs.c:945-957 | as many different free blocks of group 0 as asked for, or all there are; nothing else is taken |
| Newfs.IPut | fs/newfs_ext2fs/mke2fs.c:1321-1345 | an inode that is not reserved is marked in group 0 and counted in its own; it is refused exactly when that group has none free or the bit is set |
| Newfs.FsInit | fs/newfs_ext2fs/mke2fs.c:911-997 | lost+found and the root: it fails exactly when group 0 has too few free blocks; otherwise both invariants hold, with these two directories |
| Newfs.LostFoundBlocks | fs/newfs_ext2fs/mke2fs.c:928-932 | lost+found gets as many blocks as its size fills, at least one and at most the direct ones |
| Newfs.MarksAreOverhead | fs/fsck_ext2fs/pass1.c:66-93 | pass 1 of fsck marks exactly the overhead newfs sets, if and only if no descriptor blocks are reserved |
| NewfsSizes.ChooseSizes | fs/newfs_ext2fs/mke2fs.c:283-478 | groups, inodes and reserved descriptor blocks are those of `Sizes`, which the following rows characterise; 32-bit arithmetic wraps |
| NewfsSizes.LayoutMeans | fs/newfs_ext2fs/mke2fs.c:297-372 | the volume is used to its end, its last group having a block beyond its overhead, or what is left behind the last group is too small for that; descriptor blocks are as few as hold the descriptors; each group has its share of the inodes, rounded up to full table blocks |
| NewfsSizes.ReservedToGrow | fs/newfs_ext2fs/mke2fs.c:434-477 | with the reserved blocks the descriptors of a volume 1024 times as large fit, unless a pointer block names no more or the last group has no more room; with one block less they do not |
| NewfsSizes.GroupZeroDecides | fs/newfs_ext2fs/mke2fs.c:332-350 | what is chosen can be laid out if and only if the inodes of a group fit its bitmap and group 0 has room for its overhead |
| NewfsSizes.LastFits | fs/newfs_ext2fs/mke2fs.c:470-472 | a last group that is kept has room for its overhead, reserved blocks included |
| NewfsSizes.InodesDecide | fs/newfs_ext2fs/mke2fs.c:437-472 | on volumes whose descriptors fit a block of pointers the inodes alone decide |
| NewfsSizes.TableTooLarge | fs/newfs_ext2fs/mke2fs.c:326-345 | a dropped last group that makes the inode table larger than a group |
| NewfsSizes.NoGroupLeft | fs/newfs_ext2fs/mke2fs.c:341-345 | a dropped only group |
| Lifecycle.MountedStarts | kext/ext2_alloc.c:484-503 | a volume that satisfies the allocator's invariant is a starting state of the concurrent allocator, whatever files its threads are going to work on |
| Lifecycle.MountedIsSafe | kext/ext2_alloc.c:484-619 | from there, in every run: no block is in two hands, and none in hand is free |
| Lifecycle.MountedCounts | kext/ext2_alloc.c:610-617 | and the counts, of each group and of the volume, are those of the bitmaps wherever nobody is changing them |
| Lifecycle.TakingIsAdding | kext/ext2_alloc.c:610-617 | on the set of blocks in use, which is what files see, allocating adds one block that was not in it and freeing takes just that one out |
| Lifecycle.NewVolume | fs/newfs_ext2fs/mke2fs.c:911-997 | after newfs both invariants hold, and lost+found and the root are sound on the bitmaps and hold different blocks |
| Lifecycle.SoundWithoutDuplicates | fs/fsck_ext2fs/pass1.c:320-352 | with no duplicate recorded, every file that stays and was walked to the end is sound on the bitmap if the walk covers it, and no two hold the same block |
| Lifecycle.RecordFiles | fs/fsck_ext2fs/pass1.c:120-293 | the references recorded are those the block walk meets of the inodes accepted; passes 1, 1b and 4 leave exactly the difference of `FsckBlocks.CheckVolume`, and pass 1b leaves out the last inode when every number is one |
| Lifecycle.CheckedVolume | fs/fsck_ext2fs/pass5.c:147-222 | passes 1, 1b, 4 and 5 for all answers: both invariants hold, the second unless there are surplus inodes; if all references of inodes in use were recorded a bit is set exactly when something that stays uses the block; an inode bit is set exactly when the inode stays, is reserved or lies behind the last one; and without duplicates and unrecorded clearing the files that stay are sound |
| Lifecycle.TakenWhenRecorded | fs/fsck_ext2fs/pass5.c:147-161 | when the block bits are those of what stays |
| Lifecycle.FilesInHands | kext/ext2_alloc.c:808-848 | after such a check, threads can start with those files in their hands |

## Left out

- Extent-mapped files: insertion places records before their predecessor, so the order that lookup needs is not kept.
- Journal replay, rename, mount and unmount, credentials, timestamps, the vnode layer, prompts and option parsing.
- ext2_blkpref and ext2_dirpref: preferences are arbitrary inputs of the model.
- Inode allocation over the groups: the probe is that of `GroupAllocator`; its interleavings are those of `AllocProtocol` on another bitmap.
- ext2_clusteralloc: nothing calls it.
- Runs backward of ext2_bmaparray: no caller asks for them.
- Repeated calls of propagate from pass3: they relink lists that were not reset.
- Blocks out of range in the block walk: pass1check reports them and the walk does not go below them; `BlockWalk` is about inodes without any.
- The prompts of iblock and ckinode for partially truncated inodes and empty directory blocks, those of checkinode for partially allocated inodes and for holding bad blocks, and block counts.
- Repairs of passes 2 and 3 that allocate or free an inode or a block themselves: a new root, a new lost+found, a longer directory.
- NewfsSizes.ChooseSizes: the number of inodes is an input; newfs takes it from the density or the size of the volume when it is not given.
- The resize inode of newfs, the contents of its directories, and what writing the backup descriptors leaves out.
- The prompts and checks of pass 2 other than those that set a parent or a state.
- How the cluster layer moves the data of a write: whether it succeeds is an input.
- FileBlocks.File.Alloc: when ext2_alloc refuses is a number of blocks in use, for users without the reserve a smaller one; which free block ext2_alloc picks is left open, because that is the subject of GroupAllocator; `Lifecycle.TakingIsAdding` connects the two.
- GroupAllocator.Allocator.AllocCg: bitmaps are values in a field; sharing of their buffers between threads is in AllocProtocol.
- AllocProtocol.Apply: the order in which a thread probes the groups is left open.
- FsckBlocks.Checker.Pass1bCheck: the linked list is a sequence, so the pointers between nodes and the freeing of memory are not captured.
- BufferPool.Pool.GetBlk: pass5 calls it on a buffer it holds, without looking whether another one has the block; the model is about blocks no other buffer has.
- BufferPool.Pool.GetDataBlk: the doubly linked list is a sequence of buffer objects.
- Directory.Directory.Create: a block whose record length is 0 is skipped by the search in the code; the model is about directories of well-formed blocks.
