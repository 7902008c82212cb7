# chisai-fs in Dafny

chisai-fs keeps a small Unix-like file system on a flat block device: a superblock, then block
groups, each with two bitmaps, one inode slot and one data block per bit. This project models the
storage core of that program and proves what its operations do to the device, to the files and to
the tree of paths.

Two forms of every operation stand side by side:

- The imperative form follows the program: `BitVec` and `BlockGroups` update bitmaps and cached
  hints in place, `DirTable` updates a directory's slots in place, and `FileSystem` reads and writes
  an `array<byte>` device through the program's own offset arithmetic. Inodes of open files are held
  in memory and stored at the end, as the program does.
- The specifying form is a function on the value a mounted device holds (`State.Fs`: inode slots,
  data blocks, two pools, two counters). Every method of `FileSystem` ends in the state its function
  gives. The theorems are about these functions, and so hold for the device.

How the modules build on each other:

| files | what they hold |
|---|---|
| `arith`, `bits`, `bitvec` | products and quotients; the bits of a byte-packed bitmap; the bitmap updated in place |
| `pools`, `block_groups` | the allocator as a function and against a plain set; the block groups updated in place |
| `layout`, `align`, `codec` | offsets with 32-bit and 64-bit wrap-around; the alignment macros; inodes, block numbers and integers as bytes |
| `tables`, `dir_table` | directory tables as values and updated in place |
| `paths`, `namespace` | path strings; the tree of paths and what adding, cutting and moving an entry does to it |
| `state`, `invariant` | the mounted file system as a value; what every operation keeps |
| `file_map`, `file_io`, `truncate` | block maps, writing, reading, truncating |
| `progress`, `file_ends`, `crossing` | how far a write gets, where a file ends, writes that do not store what they report |
| `nodes`, `lookup`, `ops`, `moves`, `replace` | single updates of the tree, path resolution, create and mkdir, rename and remove, and the two together |
| `runs`, `walks`, `first_steps` | mounting a formatted device, runs of operations from there, what they do to path strings, and the first ones |
| `disk`, `following`, `handles`, `file_system` | the device as bytes, and the file system updated in place on it |

The main results:

- **Runs.** From a freshly formatted device, after any run of operations that meet the conditions
  under "Left out": paths form a tree without sharing or cycles, every path leads to an allocated inode, no block is referred to twice,
  everything referred to is allocated, and both free counters are exact, except that
  `free_blocks` has gained one for each removed node without a first block (`Runs.EveryRun`).
  The same runs, executed on the bytes of the device, end in that state
  (`FileSystems.FileSystem.DoAll`).
- **Non-interference.** No operation changes the inode, block map, contents or entries of a node it
  does not touch (`Runs.OthersUnchanged`), down to the device by the disjointness of its regions.
- **Files.** What was written reads back, nothing else in the file changes, the free count falls by
  exactly the holes filled and a new indirect table, and a write gets as far as the free blocks
  allow, within the direct blocks, the indirect part, or from one into the other.
- **Results in full.** Every operation's result is stated field by field and slot by slot, with each
  error and its exact condition: what a new file or directory holds, which entry a table gains or
  loses and where, the size and the count of 512-byte units a write or a cut leaves, and where all of
  it stands on the device.
- **Paths.** Create and mkdir add one path, remove deletes a subtree, rename moves a subtree, and all
  other paths resolve as before, in the tree (`Operations`, `Moves`) and for every path string as the
  program walks it (`Walks`). After every run that enters nothing under a path with a slash at its
  end, the two are the same (`Walks.EveryPathIsString`).
- **Allocation.** Over every run, the allocator with its bitmaps and cached hints behaves like a set.

Where the program falls short of what it is for, the model does what the program does, and a lemma
gives the exact condition under which the intended result holds:

- A release does not refresh its group's hint: hints stay usable exactly when that hint was
  non-zero (`Pools.ReleaseKeepsHintsLiveIff`); filling a pool and releasing one index breaks them
  (`Pools.ReleaseIntoFullGroup`).
- Looking for a block through a missing indirect table loads through data index 0, which is
  addressed behind the device. The program ignores a seek that fails there and takes the four bytes
  behind its previous access; the model takes that word as an input. The search is right exactly
  when it needs no missing table or the word is 0 (`FileMap.FindAgreesIff`), as it is on an image of
  zeros.
- Creating the indirect table with the last free block reports success with data index 0
  (`FileMap.AllocBlkAddsBinding`). Together: a write within the size limit stores all it reports
  exactly when it needs no new table, stops before it, or reads 0 in its place and has not exactly
  one block left for it (`Crossing.StoresReportedIff`). A write past the limit reports bytes that
  only overwrite its last block, unless blocks run out before (`Crossing.OverLimitIff`).
- The size stored after a write is the end of the file exactly for a write at the old end, one from
  0 that gets as far as the old end, or one behind the old end that stores nothing
  (`FileEnds.SizeIsTrueEndIff`).
- In particular a write inside a file makes it as short as the number of bytes written: reading from
  the start afterwards gives no more than that (`FileEnds.OverwriteCutsFile`).
- A read is cut to the file size whatever its position, so it returns the contents up to the end
  exactly from 0 or within the file, and over no hole (`FileEnds.ReadsToTheEndIff`).
- Truncating a filled file works exactly when its size is not a multiple of 512, and blocks have 512
  bytes or the file is shorter than that (`Truncate.TruncateWorksIff`); when it works, the contents
  below the new size survive exactly for a block multiple (`Truncate.TruncateKeepsContentsIff`,
  with a loss in `Truncate.TruncateLosesTail`). At most one truncation of such a file succeeds, because
  the count it stores reaches one slot too far (`Truncate.TruncateOnlyOnce`).
- A path that leads through a file reads the file's data as a directory. That is defined and
  harmless exactly when the search stays within the table and finds no allocated inode
  (`Resolution.EnterAgreesIff`); the number where a table has its size is above 15 in almost any
  text, and the program then reads past its table (`Resolution.FileReadPastTable`).
- A rename onto an existing name reports success and leaves the moved node on no path
  (`Moves.RenameTargetIff`, from a fresh device in `FirstSteps.RenameHidesDirectory`); a rename that
  fails late loses its source (`Moves.RenameFileMeaning`). The hidden node is found again when the
  target is removed: the two calls together replace the target by the source and restore the
  invariant (`Replacing.RenameThenRemove`).
- A path that ends in a slash has an empty last name, and the operations enter, look up and remove
  that name, but a walk never asks for it. So a file or directory made under such a path is reached
  by no path string (`Operations.CreateFileMeaning`, `Walks.CreateFileWalks`); a rename to one, even
  of `/a` to `/`, reports success and loses what it moves (`Walks.RenameToSlashLoses`, from a fresh
  device in `FirstSteps.RenameToRootLosesDirectory`); removing `/x/` aborts although the walk finds
  `x` (`Walks.RemoveWithSlashAborts`).
- Removing gives back one block, that in the first slot. All blocks of the node are given back exactly
  when it had no other (`Moves.RemoveFreesAllIff`), and what was below it stays allocated but on no
  path: every other node stays reachable exactly when the removed one had no entries
  (`Moves.RemoveStrandsIff`).
- The length check lets names of 28 bytes through although they leave no room for the terminator.
  Comparisons of names do not stop at the end of a name's buffer, so whether such a name is found
  depends on the inode number stored behind it (`Tables.FullLengthName`). The tables the program
  maintains with shorter names are searched as intended (`Tables.TerminatedMatch`).
- Formatting multiplies the block size by a device size that the system counts in units of 512 bytes.
  The groups counted fit on the device exactly for blocks of 512 bytes (`Layout.FormatFitsDeviceIff`).
- `ALIGN_DOWN` rounds down exactly for powers of two (`Align.AlignDownIffPowerOfTwo`).

## Model

| member | source | states |
|---|---|---|
| Bits.SetBit | utils/bitvec.c:21-30 | setting by shift and mask turns on that flag and no other |
| Bits.ResetBit | utils/bitvec.c:32-41 | clearing by shift and mask turns off that flag and no other |
| Bits.FlagAt | utils/bitvec.c:10-19 | index `8 * i + j` of the bitmap is bit `j` of byte `i` |
| Bits.CountClearOfByte | utils/bitvec.c:43-51 | the popcount of a byte accounts for exactly its clear flags |
| Bits.CountClearUpdate | utils/bitvec.c:43-51 | changing one flag moves the number of clear flags by exactly that flag |
| Bits.FfsOfComplement | utils/bitvec.c:58-61 | the builtin on the promoted complement answers the least clear bit, and 9 for a full byte |
| Bits.FirstClearMeaning | utils/bitvec.c:53-66 | the scan finds the least clear flag, and answers 0 exactly when there is none |
| BitVector.BitVec.Get | utils/bitvec.c:10-19 | the flag at an index |
| BitVector.BitVec.Set | utils/bitvec.c:21-30 | in place, exactly one flag is turned on |
| BitVector.BitVec.Reset | utils/bitvec.c:32-41 | in place, exactly one flag is turned off |
| BitVector.BitVec.CountZeros | utils/bitvec.c:43-51 | the byte loop counts the clear flags |
| BitVector.BitVec.FindFirstSet | utils/bitvec.c:53-66 | the byte loop finds one plus the least clear index, or 0 |
| Pools.SplitFindsBit | src/chisai-core/block_group.c:81-103 | division and remainder of `index - 1` find the bit the index stands for, across groups |
| Pools.AllocAddsOne | src/chisai-core/block_group.c:105-129 | allocation returns an index that was free and adds exactly that one |
| Pools.AllocFailsIffFull | src/chisai-core/block_group.c:105-129 | allocation answers 0 exactly when every index of every group is in use |
| Pools.AllocCounts | src/chisai-core/block_group.c:22-46 | allocation takes one from the free count and keeps the hints usable |
| Pools.HintAgreesWithCount | src/chisai-core/block_group.c:6-46 | the cached hint is 0 exactly when the group is full |
| Pools.AllocIsLeast | src/chisai-core/block_group.c:105-129 | with scanned hints the least free index is handed out |
| Pools.ReleaseRemovesOne | src/chisai-core/block_group.c:131-151 | releasing an index in use takes out exactly that index and frees one |
| Pools.ReleaseKeepsHintsLiveIff | src/chisai-core/block_group.c:131-151 | hints stay usable exactly when the group's hint was non-zero, because a release does not refresh it |
| Pools.ReleaseIntoFullGroup | src/chisai-core/block_group.c:118-151 | after filling a pool, a release leaves an open group with hint 0 that the next allocation would take |
| Pools.PoolRefinesSet | src/chisai-core/block_group.c:105-151 | over every run of allocations and permitted releases the allocator answers as a plain set of used indices may |
| Pools.SequentialAlloc | src/chisai-core/block_group.c:105-129 | from empty bitmaps, allocation number `k + 1` returns `k + 1` up to the capacity, and 0 from then on |
| Pools.AllocEffect | src/chisai-core/block_group.c:22-36 | a successful allocation takes the cached position of the first group that is not full, caches the least clear one there, and changes nothing else |
| Pools.AllocAt | src/chisai-core/block_group.c:118-129 | the group loop stops at the first open group and answers its hint, shifted by the group |
| BlockGroupTable.BlockGroup.Alloc | src/chisai-core/block_group.c:22-36 | sets the hinted bit and caches the next clear one |
| BlockGroupTable.BlockGroups.constructor | src/chisai-core/block_group.c:48-79 | groups share no storage; bitmaps are the loaded ones, hints are scanned |
| BlockGroupTable.BlockGroups.Exist | src/chisai-core/block_group.c:81-103 | whether an index is in use |
| BlockGroupTable.BlockGroups.FindOpen | src/chisai-core/block_group.c:107-109 | the first group with a clear bit |
| BlockGroupTable.BlockGroups.Alloc | src/chisai-core/block_group.c:105-129 | the in-place allocation gives the pool and index of `Pools.Alloc` |
| BlockGroupTable.BlockGroups.Release | src/chisai-core/block_group.c:131-151 | the in-place release gives the pool of `Pools.Release` |
| Layout.RegionsApart | src/chisai-core/fs.c:13-43 | superblock, bitmaps, inode slots and data blocks of all groups are pairwise disjoint |
| Layout.RegionInBounds | src/chisai-core/fs.c:13-43 | every region of every group lies inside the superblock and groups counted |
| Layout.FormatFits | src/chisai-format.c:35-43 | the groups counted in 32 bits fit in the device size used for counting, and one more would not unless the count has wrapped around |
| Layout.FormatFitsDeviceIff | src/chisai-format.c:23-43 | with the device size in the system's 512-byte units, the groups counted fit exactly for blocks of 512 bytes |
| Layout.LargestBlock | src/chisai-core/fs.c:194-195 | the group size fits 32 bits exactly up to block size 23106 |
| Layout.OffsetsAreExact | src/chisai-core/fs.c:13-43 | the 32-bit and 64-bit arithmetic never wraps and gives the reference layout, for every index |
| Layout.OffsetsInNumbers | src/chisai-core/fs.c:13-43 | the offset of every inode and block, written out with quotient and remainder |
| Layout.BitmapStart | src/chisai-core/block_group.c:58-71 | the bitmaps are read from the first two blocks of their group |
| Layout.IndexZeroIsOffDevice | src/chisai-core/fs.c:30-43 | index 0 wraps around and addresses bytes behind the device |
| Align.AlignDownIffPowerOfTwo | include/utils/align.h:7-10 | the mask arithmetic rounds every offset down to a multiple exactly for powers of two |
| State.CodeSplitsOffset | src/chisai-core/fs.c:545-546 | block number and offset in the block, as the loops compute them, split the position |
| Codec.FromToLE | src/chisai-core/fs.c:446-449 | a little-endian integer reads back as itself |
| Codec.ToLEBytes | src/chisai-core/fs.c:446-449 | the lowest byte of an integer comes first |
| Codec.InodeLayout | include/chisai-core/inode.h:22-31 | the place of every field of a stored inode |
| Codec.InodeRoundTrip | src/chisai-core/inode.c:52-60 | a stored inode reads back as itself |
| Codec.EntryAfterSet | src/chisai-core/fs.c:501-505 | writing one block number of an indirect table changes that entry and no other |
| Tables.InsertAddsBinding | src/chisai-core/dir.c:30-38 | appending a new name adds exactly that name-to-inode binding |
| Tables.InsertDuplicateIsHidden | src/chisai-core/dir.c:30-38 | appending a name that is there already changes the answer for no name |
| Tables.RemoveDeletesBinding | src/chisai-core/dir.c:40-51 | moving the last slot into the hole deletes exactly one binding and answers its inode |
| Tables.TerminatedMatch | src/chisai-core/dir.c:19-28 | comparing the memory of a slot whose name is terminated compares exactly that name, and ends within the table |
| Tables.GoodSearchStays | src/chisai-core/dir.c:19-28 | in a table the program maintains, no search for any name leaves the table |
| Tables.FullLengthName | src/chisai-core/dir.c:19-36 | a name that fills its buffer is matched in its own slot exactly when the low byte of its inode number is 0 |
| Tables.InsertAppends | src/chisai-core/dir.c:30-38 | the new entry stands behind the others, and no other slot changes |
| Tables.RemoveIsWithout | src/chisai-core/dir.c:40-51 | the last entry stands where the removed one was, and no other slot changes |
| Tables.DuplicateSurfaces | src/chisai-core/dir.c:30-51 | appending a name that is there and then removing it leaves the appended entry |
| Tables.TableLayout | include/chisai-core/dir.h:13-23 | the place of every slot, the size and the checksum of a stored table |
| Tables.EmptyIsZeros | src/chisai-core/dir.c:4-7 | a new table is all zeros |
| Tables.TableRoundTrip | src/chisai-core/dir.c:9-17 | a stored table reads back as itself |
| DirTables.DirTable.FileInodeIdx | src/chisai-core/dir.c:19-28 | whenever its comparisons stay within the table, the linear search answers the table's binding |
| DirTables.DirTable.Insert | src/chisai-core/dir.c:30-38 | the in-place append gives the table of `Tables.Insert` |
| DirTables.DirTable.Remove | src/chisai-core/dir.c:40-51 | the in-place swap with the last slot gives the table of `Tables.Remove` |
| Paths.TokensAcrossSlash | src/chisai-core/fs.c:162-180 | a slash separates components, whatever is on its two sides |
| Paths.TokensArePlain | src/chisai-core/fs.c:162-180 | no component is empty or holds a slash |
| Paths.PathSplits | src/chisai-core/fs.c:294-296 | a path's components are its parent's, then its last name if that is not empty |
| Paths.TokensOfJoin | src/chisai-core/fs.c:162-180 | components survive the way through a path string |
| Namespace.PathsAreUnique | src/chisai-core/fs.c:148-184 | in a forest two paths to the same inode are the same path |
| Namespace.NoCycles | src/chisai-core/fs.c:148-184 | no path below a node leads back to it |
| Namespace.AddLeaf | src/chisai-core/fs.c:337-340 | one more entry to a childless node adds exactly one path |
| Namespace.CutRemovesSubtree | src/chisai-core/fs.c:414-416 | taking an entry out removes its path and everything below, and nothing else |
| Namespace.MovedBelow | src/chisai-core/fs.c:414-427 | below its new place a moved node resolves as below the old one |
| Namespace.MovedElsewhere | src/chisai-core/fs.c:414-427 | outside both places a move changes nothing |
| Invariant.BlockInvStep | src/chisai-core/fs.c:55-75 | if only one inode changes and takes only free blocks, nothing becomes shared |
| Invariant.SameContents | src/chisai-core/fs.c:560-592 | a node whose inode and blocks are the same keeps every byte |
| Nodes.LinkEntry | src/chisai-core/fs.c:384-386 | entering an unlinked node keeps the invariant and adds one edge |
| Nodes.UnlinkEntry | src/chisai-core/fs.c:414-416 | taking an entry out keeps the invariant and cuts one edge |
| Nodes.PlaceKeeps | src/chisai-core/fs.c:342-357 | a new inode with its table is an unlinked node, and every other node is untouched |
| Nodes.DropKeeps | src/chisai-core/fs.c:637-639 | giving back an unlinked node's inode and first block keeps the invariant |
| Nodes.DropDrift | src/chisai-core/fs.c:71-75 | the block counter moves by one too many exactly when there was no block to release |
| Resolution.ResolveIsTree | src/chisai-core/fs.c:148-184 | the walk of the code finds what the tree says on every path through directories |
| Resolution.ResolveViaParent | src/chisai-core/fs.c:284-311 | resolving a path is resolving its parent and looking up the last name there |
| Resolution.EnterAgreesIff | src/chisai-core/fs.c:164-178 | one step is defined and agrees with the tree exactly from a directory, an empty file, or data in which the search, byte by byte, stays in the table and finds no allocated inode; for components of every length |
| Resolution.FileReadAsDirectory | src/chisai-core/fs.c:164-178 | a file whose data is an encoded table is walked like a directory |
| Resolution.FileReadPastTable | src/chisai-core/dir.c:19-28 | a file with a number above 15 where a table has its size, and no match for the name, is read past the table |
| FileMap.FindAgreesIff | src/chisai-core/fs.c:432-463 | the search agrees with the block map exactly when it needs no missing table or the word read behind the device is 0 |
| FileMap.ZeroFillClears | src/chisai-core/fs.c:487-495 | after the loop every entry of a new indirect table is a hole |
| FileMap.AllocBlkAddsBinding | src/chisai-core/fs.c:465-515 | allocation adds exactly one binding with a block that was free, fails because none is, or answers index 0 exactly when the new table took the last block |
| FileMap.AllocPastLimitLeaks | src/chisai-core/fs.c:465-515 | behind the last block number an allocation would answer CORRUPT and keep the block |
| FileMap.FindAfterAlloc | src/chisai-core/fs.c:432-515 | afterwards the search answers the new block there, or still a hole when the table took the last block, and the old answer elsewhere; with a table it no longer depends on the device |
| FileIO.LimitMeaning | src/chisai-core/fs.c:441-456 | the supported range is exactly the documented size limit |
| FileIO.RoundsAre | src/chisai-core/fs.c:534-551 | a loop that completes goes round `(off % b + size) / b` times, rounded up |
| FileIO.WriteLoopMeaning | src/chisai-core/fs.c:532-551 | a prefix of the buffer is stored, all else is unchanged, and it stops early only without free blocks |
| FileIO.WriteLoopCost | src/chisai-core/fs.c:532-551 | the free count falls by the holes filled and one for a new indirect table |
| FileIO.WriteLoopLater | src/chisai-core/fs.c:532-551 | block numbers behind the last byte written keep their block or stay holes |
| FileIO.WriteFileMeaning | src/chisai-core/fs.c:517-558 | the whole write: contents, the size left by a write inside, at or behind the end, every other field, other nodes, counters |
| FileIO.ReadLoopMeaning | src/chisai-core/fs.c:560-592 | the loop succeeds exactly when no position is a hole, and returns the stored bytes |
| FileIO.WriteThenRead | src/chisai-core/fs.c:517-592 | what a write reports as written reads back, also when blocks ran out |
| Progress.WrittenAtLeast | src/chisai-core/fs.c:534-551 | a write gets `k` bytes done exactly when the blocks they cost are free; in particular it completes exactly when the whole buffer's are |
| FileEnds.SizeIsTrueEndIff | src/chisai-core/fs.c:517-558 | whether the size stored is the end of the file, from position, buffer, old size and free blocks |
| FileEnds.OverwriteCutsFile | src/chisai-core/fs.c:517-592 | after a write inside a file, a read from the start gives at most as many bytes as were written |
| FileEnds.ReadsToTheEndIff | src/chisai-core/fs.c:560-592 | a read returns the contents up to the end of the file exactly from 0 or within the file, and over no hole |
| Crossing.LoopSplits | src/chisai-core/fs.c:534-551 | a write is one up to a block boundary and, if that completes, one from there on |
| Crossing.SkippedStays | src/chisai-core/fs.c:534-551 | a block number of the indirect part that a round has skipped stays a hole, whatever is written behind it |
| Crossing.StuckLoop | src/chisai-core/fs.c:450-456 | past the last block number every round stores into the last block, and all bytes are reported |
| Crossing.StoresReportedIff | src/chisai-core/fs.c:517-558 | after a write within the limit the file holds the bytes reported exactly when it needs no new table, stops before it, or reads 0 for it and has not exactly one block left |
| Crossing.OverLimitIff | src/chisai-core/fs.c:517-558 | after a write past the limit the file holds the bytes reported exactly when blocks run out before the limit |
| Crossing.ReadPastLimit | src/chisai-core/fs.c:560-592 | a read past the last block number answers CORRUPT, or ENOENT for a hole before it |
| Truncate.TruncateLoopMeaning | src/chisai-core/fs.c:607-611 | the loop ends exactly when all its slots are filled, and releases exactly their blocks |
| Truncate.TruncateFileMeaning | src/chisai-core/fs.c:594-616 | truncation succeeds exactly without growing and over filled slots, stores the size and its count of units, and touches no other file |
| Truncate.CutBytes | src/chisai-core/fs.c:594-616 | bytes of kept blocks stay and bytes of released blocks become holes |
| Truncate.TruncateKeepsContentsIff | src/chisai-core/fs.c:601-611 | all bytes below the new size survive exactly for a block multiple or behind the blocks visited |
| Truncate.TruncateWorksIff | src/chisai-core/fs.c:601-608 | for a filled file the count of 512-byte units makes truncation trip its assertion except for these sizes |
| Truncate.TruncateOnlyOnce | src/chisai-core/fs.c:594-616 | after one successful truncation of a filled file every further one trips an assertion |
| Truncate.WrittenOnceIsFilled | src/chisai-core/fs.c:517-558 | a new file written once from its start has exactly the blocks and size fields its size calls for |
| Truncate.TruncateAfterWriteIff | src/chisai-core/fs.c:517-616 | when such a file can be cut: never at a multiple of 512, and with larger blocks only below 512 bytes |
| Truncate.TruncateLosesTail | src/chisai-core/fs.c:601-611 | cutting such a file inside a block turns stored bytes below the new size into holes |
| Operations.ParentMeaning | src/chisai-core/fs.c:284-311 | which of the four answers the parent search gives, and when |
| Operations.CreateFileMeaning | src/chisai-core/fs.c:360-394 | each answer with its condition; on success an empty file with the given mode, and one more entry and path if the table has room; the walk of the path string leads to it exactly when the path has a last name too |
| Operations.CreateThenRead | src/chisai-core/fs.c:360-592 | a new file reads as no bytes, whatever is asked for |
| Operations.MkdirMeaning | src/chisai-core/fs.c:313-358 | the same for directories: all fields of the new inode, its one block with an empty table, and the block that a late failure leaks |
| Moves.RemoveFileMeaning | src/chisai-core/fs.c:618-642 | removing deletes the subtree, in the tree and for the walk, takes the one entry out, frees exactly the first block, gives each error under its condition, trips its assertion exactly for a missing name, and miscounts exactly without a first block |
| Moves.RemoveFreesAllIff | src/chisai-core/fs.c:637-639 | a removal gives back all blocks of the node exactly when it had none but the first |
| Moves.RemoveStrandsIff | src/chisai-core/fs.c:618-642 | a removal leaves every other node reachable exactly when the removed one had no entries |
| Moves.RenameFileMeaning | src/chisai-core/fs.c:396-430 | when a rename leaves everything, moves the whole subtree, hides it behind an existing name, or loses the source, with every answer and what the tables hold then; the walk follows a move exactly to a target with a last name |
| Moves.RenameTargetIff | src/chisai-core/fs.c:396-430 | after a successful rename the walk of the target string leads to the moved node exactly when the target was free and has a last name; onto an existing name, to what was there, and the moved node is on no path; either way its entry is the last of the target's table |
| Moves.RenameOntoSibling | src/chisai-core/fs.c:396-430 | a rename onto another entry of the same directory succeeds and hides what it moves |
| Replacing.RenameThenRemove | src/chisai-core/fs.c:396-642 | a rename onto an existing name and the removal of that name together move the source there and replace what was there |
| Runs.MountMeaning | src/chisai-core/fs.c:91-120 | on a formatted device the three assertions of root creation hold, the root's inode has the fields given there, and the invariant is established |
| Runs.StepKeeps | src/chisai-core/fs.c:313-642 | every operation keeps the invariant, the nodes it does not touch, and the counters |
| Runs.OthersUnchanged | src/chisai-core/fs.c:313-642 | inode, block map, bytes and entries of an untouched node are the same afterwards |
| Runs.RunKeeps | src/chisai-core/fs.c:45-75 | over a run the counters drift by the miscounted removals only |
| Runs.EveryRun | src/chisai-core/fs.c:91-642 | every run from a formatted device ends in a tree without sharing, with exact counters up to those removals |
| Walks.CreateFileWalks | src/chisai-core/fs.c:360-394 | every path string is walked as before, except that of the new file |
| Walks.MkdirWalks | src/chisai-core/fs.c:313-358 | the same for a directory, and for a late failure |
| Walks.RemoveFileWalks | src/chisai-core/fs.c:618-642 | every path string is walked as before, except those through the removed path, which lead nowhere |
| Walks.RenameFileWalks | src/chisai-core/fs.c:396-430 | whatever becomes of the rename, every path string away from the target is walked as before, except those through the source |
| Walks.RenameFileWalksBelow | src/chisai-core/fs.c:396-430 | below the target every walk ends where it ended below the source |
| Walks.RenameToSlashLoses | src/chisai-core/fs.c:396-430 | after a rename to a path with a slash at its end, no path string leads to anything that was moved |
| Walks.RemoveWithSlashAborts | src/chisai-core/fs.c:618-632 | a directory path with a slash at its end is found by the walk and trips the assertion of the removal |
| Walks.EveryPathIsString | src/chisai-core/fs.c:148-184 | after every run without entries under such paths, every node of the tree is where the walk of its path string ends |
| Walks.EveryRunWalks | src/chisai-core/fs.c:148-184 | after every run, two strings lead to one inode only with equal components, and only to allocated inodes |
| FirstSteps.FirstDirectory | src/chisai-core/fs.c:313-358 | right after mounting, making a directory in the root is permitted, and its path string, which led nowhere, leads to it |
| FirstSteps.RenameToRootLosesDirectory | src/chisai-core/fs.c:396-430 | from a fresh device, a directory renamed to the root's path is on no path string any more |
| FirstSteps.RenameHidesDirectory | src/chisai-core/fs.c:396-430 | from a fresh device, two directories and a rename of one onto the other put it on no path |
| Disk.StoreInode | src/chisai-core/fs.c:77-83 | storing an inode on the device changes that inode and no other slot or block |
| Disk.StoreBlock | src/chisai-core/fs.c:547-548 | storing bytes at a block's offset changes those bytes of that block and nothing else |
| FileSystems.LoadBitmaps | src/chisai-core/block_group.c:58-72 | the group loop reads both bitmaps of every group from where they are |
| FileSystems.FileSystem.constructor | src/chisai-core/block_group.c:48-79 | loading leaves the device alone and takes pools and counters from it |
| FileSystems.FileSystem.SaveInode | src/chisai-core/fs.c:77-83 | on the device, exactly one inode changes |
| FileSystems.FileSystem.LoadInode | src/chisai-core/fs.c:131-132 | the inode the device holds |
| FileSystems.FileSystem.SaveDir | src/chisai-core/fs.c:85-89 | on the device, exactly one table changes |
| FileSystems.FileSystem.DataAlloc | src/chisai-core/fs.c:55-63 | pool and counter move together |
| FileSystems.FileSystem.InodeAlloc | src/chisai-core/fs.c:45-53 | pool and counter move together |
| FileSystems.FileSystem.DataRelease | src/chisai-core/fs.c:71-75 | the counter moves even for index 0 |
| FileSystems.FileSystem.InodeRelease | src/chisai-core/fs.c:65-69 | pool and counter move together |
| FileSystems.FileSystem.FindInode | src/chisai-core/fs.c:122-134 | found exactly when allocated |
| FileSystems.FileSystem.FindDir | src/chisai-core/fs.c:136-146 | found exactly when the block is allocated |
| FileSystems.FileSystem.PathToInode | src/chisai-core/fs.c:148-184 | the token loop computes `Resolution.Resolve` |
| FileSystems.FileSystem.PathToParent | src/chisai-core/fs.c:284-311 | parent inode and table, or the error of `Resolution.PathToParent` |
| FileSystems.FileSystem.FindBlk | src/chisai-core/fs.c:432-463 | the search for the held inode; a load through index 0 is addressed behind the device and leaves the given word |
| FileSystems.FileSystem.ZeroTable | src/chisai-core/fs.c:490-495 | one device access per entry clears the table |
| FileSystems.FileSystem.AllocBlk | src/chisai-core/fs.c:465-515 | held inode and device together are the state of `FileMap.AllocBlk` |
| FileSystems.FileSystem.WriteBlocks | src/chisai-core/fs.c:532-551 | the loop ends in the state of `FileIO.WriteLoop` after the number of rounds given there |
| FileSystems.FileSystem.WriteFile | src/chisai-core/fs.c:517-558 | the device holds what `FileIO.WriteFile` says |
| FileSystems.FileSystem.ReadFile | src/chisai-core/fs.c:560-592 | the bytes or the error of `FileIO.ReadFile` |
| FileSystems.FileSystem.DropBlocks | src/chisai-core/fs.c:607-611 | the loop downwards releases as `Truncate.TruncateLoop` does |
| FileSystems.FileSystem.TruncateFile | src/chisai-core/fs.c:594-616 | the device holds what `Truncate.TruncateFile` says |
| FileSystems.FileSystem.Mkdir | src/chisai-core/fs.c:313-358 | the device holds what `Operations.Mkdir` says, with the same error |
| FileSystems.FileSystem.CreateFile | src/chisai-core/fs.c:360-394 | the device holds what `Operations.CreateFile` says, with the same error and index |
| FileSystems.FileSystem.RenameFile | src/chisai-core/fs.c:396-430 | the device holds what `Moves.RenameFile` says, with the same error |
| FileSystems.FileSystem.RemoveFile | src/chisai-core/fs.c:618-642 | the device holds what `Moves.RemoveFile` says, with the same error |
| FileSystems.FileSystem.CreateRoot | src/chisai-core/fs.c:91-120 | the device holds the state of `Runs.CreateRoot`, and the invariant holds |
| FileSystems.FileSystem.Do | src/chisai-core/fs.c:313-642 | one operation on the device keeps the invariant and is the step of the specification |
| FileSystems.FileSystem.DoAll | src/chisai-core/fs.c:313-642 | a run on the device is the run of the specification |
| FileSystems.Mount | src/chisai-core/fs.c:186-212 | mounting a device with blank bitmaps gives an empty root, exact counters and usable hints |

## Left out

- Operations.ParentMeaning: asks that the path has a slash, that its last name does not have exactly 28 bytes (Tables.FullLengthName), and that its parent part does not lead through a file with data (Resolution.EnterAgreesIff); the create, mkdir, rename and remove results inherit this.
- FileIO.WriteFileMeaning: asks that the range is within the size limit, that a load made for a missing indirect table answers 0, and that not exactly one block is left for that table; Crossing.StoresReportedIff and Crossing.OverLimitIff say what becomes of the reported bytes otherwise, but not what else such a write destroys.
- FileIO.ReadLoopMeaning: asks that the range is within the size limit and that a load made for a missing indirect table answers 0.
- Crossing.StoresReportedIff: a store through index 0, or through a word read behind the device that names no block, is taken to change no block of the file; the program writes it at the position of its previous access.
- Crossing.SkippedStays: takes a store through index 0 to change nothing, as Crossing.StoresReportedIff does.
- Crossing.StuckLoop: when the last block it had is index 0, it does not say where the program's stores land.
- Truncate.TruncateFileMeaning: asks for at most 12 counted units; beyond them the program indexes past the direct slots of its inode.
- Runs.EveryRun: every operation of the run must meet the conditions above, a rename must have a free target (Moves.RenameTargetIff), and allocations need usable hints, that is, no earlier release into a full group (Pools.ReleaseKeepsHintsLiveIff).
- FileSystems.FileSystem.TruncateFile: says nothing about the device after a failed assertion, because the process ends there.
- FileSystems.FileSystem.WriteFile: the handle passed in must equal the inode on the device; stale handles and the reopening workaround around them belong to the FUSE layer.
- Names of 28 bytes and more overflow a local buffer of the program before their length is checked, those of exactly 28 by their terminator; the model only has the error for longer ones.
- Double-indirect blocks are not implemented in the program; the model answers CORRUPT as the program does, and the theorems exclude them by the size limit.
- Positions whose block number does not fit 32 bits: the program truncates the number, the model does not; the theorems exclude them by the size limit.
- Bitmaps and counters are never written back, so one mount session of a formatted device is modelled, not mounting again.
- The program keeps inodes and data blocks in one array of groups with two bitmaps each; the model has one object per kind of index, running the same code.
- The two writes to the inode and table of a new node are separate steps on the device; crashes between them are not modelled.
- Device accesses inside the device are complete and never fail. One addressed behind its end starts with a seek whose failure the program ignores: for a load, the word it gets is an input of the model; where a store lands is not part of the model.
- System calls, ioctls, formatting the superblock and its magic number are left out.
- Times, owners, permissions, link counts after creation and the listing of directories are left out: they are fixed values or copies.
- Memory management, logging and command line handling are left out.
