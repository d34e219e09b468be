# A Dafny model of the storage core

The repository re-creates the BlueStore stack in C++: the BlueFS file system with its
metadata log, a persistent free-space bitmap over a key-value store, two block
allocators, and a two-tier store with its own journal and extent map. This project
models the places where a compact, logged, indexed or racing form has to agree with a
simple one, and proves that it does, for every input, every run and every reachable
state.

## How the model is built

Each component has a specification of plain functions and predicates, lemmas about
that specification, and, where the source updates things in place, classes and methods
with the source's own loops, proved equal to the specification.

| component | files |
|---|---|
| BlueFS metadata log | `BluefsTypes`, `BluefsLog`, `BluefsMachine`, `BluefsProofs`, `BluefsRuns`, `BluefsRename`, `BluefsMeaning`, `BluefsObject`, `BluefsCompact` |
| free-space bitmap over XOR merges | `Freelist`, `FreelistManager`, `FreelistEnumerate`, `FreelistScan`, `KeyCodec` |
| AVL allocator | `Ranges`, `AvlIndex`, `AvlAllocator` |
| hierarchical bitmap allocator | `Slot`, `BitmapLevels`, `BitmapUnits`, `BitmapAllocator` |
| tiering journal | `JournalCodec`, `JournalScan`, `Journal`, `JournalDamage`, `JournalObject` |
| extent generation protocol | `ExtentMetrics`, `ExtentProtocol`, `ExtentObject` |
| codecs and arithmetic | `Bytes`, `Denc`, `Crc32`, `Castagnoli`, `IntArith`, `Options` |

Modelling decisions:

- Device I/O is a store of bytes or records. What an allocator hands out, what a writer
  has buffered and which threads step next are parameters.
- Mutexes make the operations they guard atomic, except in `ExtentProtocol`, where the
  single loads, stores and swaps are the steps.
- What a call means is said on the states before and after it (`BluefsMeaning`) or on the
  recorded operations (`ExtentProtocol`), and not only through the specification that its
  method is proved equal to.
- Machine words are their unsigned values, with masking, shifting, wrap-around and
  truncation written out. `Slot` defines the bitwise operators bit by bit; its lemmas
  connect them with the arithmetic used elsewhere.
- Byte offsets are converted to units of a variable size by repeated subtraction
  (`BitmapUnits.Whole`, `BitmapUnits.Reach`, `IntArith.Times`), with lemmas that these are the divisions,
  roundings and products of the source.
- The journal's scan is proved for any record format whose reading undoes its writing
  (`JournalCodec.Faithful`) and any checksum; `JournalCodec.JournalFormatIsFaithful`
  shows that the actual format, with CRC-32C, is one.

## What does not hold, and exactly when

- **Two BlueFS calls write a log that no longer mounts.** An fsync through a writer
  whose file was unlinked while dirty, with space already logged, logs a delta for a file
  that replay starts from nothing. Replaying an incremental update does not move the
  delta mark, so after a mount a growing `preallocate` of a file not opened for writing
  since logs a delta at an offset that replay rejects. `BluefsRuns.RemountRestores` shows
  that these two guards (`BluefsMachine.Hazard`) are the whole story: the next mount
  succeeds if and only if neither call was made. Two lemmas give concrete runs.
- **Renaming a file onto itself removes its name.** After a successful rename the target
  names the file if and only if it is not the source (`BluefsRename.RenameInstalls`). In the
  other case the file keeps its link, so whatever is done afterwards every mount keeps it,
  and nothing names it (`BluefsRename.LeakStays`, with a concrete run).
- **The AVL allocator gives up early.** Its best-fit search looks at the ranges too short for
  the block and at 100 more, so it misses if and only if none of those holds the block
  (`AvlAllocator.SearchBestFit`). With 101 unaligned ranges ahead of an aligned one,
  `allocate` returns no space while an aligned unit is free (`AvlAllocator.SearchLimitMisses`).
- **The bitmap allocator's `init_add_free` underflows** when the rounded start passes the
  end of the range: no unit becomes free, yet `available` loses one, and the bit of a group
  with nothing free may be set. `BitmapAllocator.Bitmap.InitAddFree` states the exact
  condition; two methods build allocators on which it happens.
- **`claim_free_to_right` can read past the levels.** It stays inside them if and only if the
  offset starts a unit or some unit at or after it is not free; beyond the last unit, if and
  only if the offset starts a group (`BitmapAllocator.RightStaysInside`, with a concrete
  allocator).
- `append_slot` compares a 32-bit sum with the capacity. An accepted slot lies inside the
  extent if and only if the sum does not overflow (`ExtentProtocol.AppendInside`).
- `mark_dead_slot` cuts the live bytes off at zero. Without overflow the account of live,
  placed and dead bytes balances if and only if no dead mark was longer than the bytes then
  live (`ExtentProtocol.LiveCounts`; `ExtentProtocol.DeadTooLong` gives a history).
- `denc_varint` exceeds its reserved `sizeof(T) + 1` bytes exactly for 64-bit values of
  2^63 and above; `denc_varint_lowz` loses a value exactly when its shifted form needs more
  than 62 bits; `denc_signed_varint` makes a negative word, on which its loop does not end,
  exactly outside 62 bits and sign.
- AVL block lengths are multiples of the unit, for every allocator, exactly when the request
  does not exceed the effective cap or the cap is a multiple (`AvlAllocator.Even`):
  `AvlAllocator.UnevenBlock` gives an allocator for every other request.

## Model

| member | source | states |
|---|---|---|
| BluefsTypes.AppendInvariant | bluestore/bluefs_types.h:138-153 | appending adds exactly the extent's length and keeps the list free of mergeable neighbours |
| BluefsTypes.AppendMerges | bluestore/bluefs_types.h:138-153 | lengths stay below 2^32 - 1, and an extent that continues the last one is merged exactly as long as they do |
| BluefsTypes.AppendKeepsPhys | bluestore/bluefs_types.h:138-153 | merging on append never changes the map from logical offset to device and address |
| BluefsTypes.ClaimKeepsPhys | bluestore/bluefs_types.h:133-136 | claiming a list maps every offset as plain concatenation does |
| BluefsTypes.HeadClaim | bluestore/bluefs_types.h:133-153 | growing a list, even in place, leaves the part below the committed offset as it was |
| BluefsTypes.DeltaRebuilds | bluestore/bluefs_types.cc:60-85 | a reader that holds the list below the committed offset and claims the delta has exactly the writer's extent list, even if an append grew a committed extent |
| BluefsTypes.DeltaNeedsCanonical | bluestore/bluefs_types.h:138-153 | a list with mergeable neighbours for which that law fails |
| BluefsTypes.Fnode.AppendExtent | bluestore/bluefs_types.h:138-153 | the list after an append; the index stays the prefix sums and `allocated` the total |
| BluefsTypes.Fnode.ClaimExtents | bluestore/bluefs_types.h:133-136 | the list after appending all; index and total kept |
| BluefsTypes.Fnode.RecalcAllocated | bluestore/bluefs_types.h:114-123 | index, total and committed mark rebuilt from the extents alone |
| BluefsTypes.Fnode.PopFrontExtent | bluestore/bluefs_types.h:155-163 | the list without its first extent, every index entry moved down by its length |
| BluefsTypes.Fnode.ClearExtents | bluestore/bluefs_types.h:179-184 | empty list, index, total and mark |
| BluefsTypes.Fnode.Seek | bluestore/bluefs_types.cc:45-58 | the binary search gives the extent and offset of the linear scan for every position, and nothing exactly beyond the allocation |
| BluefsTypes.Fnode.MakeDelta | bluestore/bluefs_types.cc:60-85 | the delta is the part of the list from the committed offset on |
| BluefsLog.ReplayConcat | bluestore/bluefs.cc:706-850 | replaying two op lists in sequence is replaying their concatenation, aborts included |
| BluefsLog.ReplayTxnsIsReplayOps | bluestore/bluefs.cc:611-862 | on a log numbered without gaps the transaction loop is the replay of all its operations |
| BluefsProofs.MkdirKeeps | bluestore/bluefs.cc:1422-1431 | memory and replay still agree |
| BluefsProofs.RmdirKeeps | bluestore/bluefs.cc:1433-1444 | memory and replay still agree, error returns included |
| BluefsProofs.OpenKeeps | bluestore/bluefs.cc:1343-1399 | memory and replay still agree for a new, a truncated and an overwritten file |
| BluefsProofs.UnlinkKeeps | bluestore/bluefs.cc:1207-1249 | memory and replay still agree after the last link goes |
| BluefsProofs.RenameKeeps | bluestore/bluefs.cc:1309-1341 | memory and replay still agree, with the target absent, another file or the same name |
| BluefsProofs.FlushKeeps | bluestore/bluefs.cc:415-453 | a flush that allocates and extends keeps the part of the list already logged |
| BluefsProofs.TruncateKeeps | bluestore/bluefs.cc:1251-1307 | memory and replay still agree after the full update of a truncation |
| BluefsProofs.PreallocateKeeps | bluestore/bluefs.cc:1733-1747 | without the hazard the incremental update replays at the right offset to the same list |
| BluefsProofs.FsyncKeeps | bluestore/bluefs.cc:1053-1071 | without the hazard a sync keeps the agreement, unlinked files included |
| BluefsProofs.FsyncIsLogged | bluestore/bluefs.cc:1053-1071 | after a successful sync of a dirty linked file the flushed transactions alone replay to its current node |
| BluefsProofs.RemountKeeps | bluestore/bluefs.cc:949-1035 | unmount and mount succeed, keep the invariant, and keep exactly the files with links |
| BluefsProofs.RemountIsIdentity | bluestore/bluefs.cc:949-1035 | unmount and mount keep the directory tree and every clean linked file |
| BluefsProofs.HazardBreaks | bluestore/bluefs.cc:801-828 | either hazardous call makes the log unreplayable |
| BluefsProofs.LogGrows | bluestore/bluefs.cc:508-565 | every operation only appends to the logged operations and keeps the sequence numbers in order |
| BluefsRuns.RunKeeps | bluestore/bluefs.cc:611-882 | over every run without a hazardous call, mounts included, replaying flushed plus pending operations rebuilds the maps |
| BluefsRuns.StepKeepsIff | bluestore/bluefs.cc:801-828 | one call keeps memory and replay in agreement if and only if it is not hazardous |
| BluefsRuns.BrokenStays | bluestore/bluefs.cc:801-828 | once the log cannot be replayed, no later call repairs it |
| BluefsRuns.HazardousRunBreaks | bluestore/bluefs.cc:801-828 | every run with a hazardous call ends in an unreplayable log |
| BluefsRuns.RemountRestores | bluestore/bluefs.cc:611-882 | from a fresh file system, the next mount succeeds if and only if no hazardous call was made, and then restores the tree and every clean linked file |
| BluefsRuns.RunIsSequenced | bluestore/bluefs.cc:486-565 | over every run transactions are numbered 1, 2, 3, …, both live counters are one ahead of the stable one, and no file is left queued as dirty |
| BluefsRuns.FsyncAfterUnlinkIsFatal | bluestore/bluefs.cc:1053-1071 | a concrete run of the first hazard, after which the mount fails |
| BluefsRuns.PreallocateAfterMountIsFatal | bluestore/bluefs.cc:1733-1747 | a concrete run of the second hazard, after which the mount fails |
| BluefsRename.RenameInstalls | bluestore/bluefs.cc:1309-1341 | after a successful rename the target names the file if and only if it is not the source |
| BluefsRename.SelfRenameLeaks | bluestore/bluefs.cc:1309-1341 | a rename onto itself leaves the file with a link and no name |
| BluefsRename.LeakStays | bluestore/bluefs.cc:865-879 | after any further calls and mounts the file is still there, and nothing names it |
| BluefsRename.SelfRenameRun | bluestore/bluefs.cc:1309-1341 | a concrete run in which it happens |
| BluefsMeaning.MkdirMeans | bluestore/bluefs.cc:1422-1431 | a new directory without entries; every entry and file stays |
| BluefsMeaning.RmdirMeans | bluestore/bluefs.cc:1433-1444 | the directory is gone and had no entries; the two errors say that it was missing or had some; every entry stays |
| BluefsMeaning.OpenMeans | bluestore/bluefs.cc:1343-1399 | an overwritten file keeps size and bytes, any other is empty, a new one has an unused number; no other name or file changes |
| BluefsMeaning.OpenIsDurable | bluestore/bluefs.cc:1343-1399 | the next mount gives the name and the file as they are after opening |
| BluefsMeaning.UnlinkMeans | bluestore/bluefs.cc:1235-1249 | exactly the one name goes; the file loses a link, is deleted with the last, and keeps its bytes for open writers |
| BluefsMeaning.UnlinkIsDurable | bluestore/bluefs.cc:1207-1249 | neither replay nor the next mount has the file |
| BluefsMeaning.RenameMeans | bluestore/bluefs.cc:1309-1341 | exactly the old name goes and the new one names the file, if they differ; every other name and every file stays |
| BluefsMeaning.FlushMeans | bluestore/bluefs.cc:415-453 | the size becomes the maximum of the old one and the end of the write; placed bytes stay and new ones lie where the allocator put them; dirty exactly if something changed; without space nothing changes |
| BluefsMeaning.TruncateMeans | bluestore/bluefs.cc:1251-1307 | the size is the new one, every byte below it stays at its device and address, nothing is mapped from there on; the three returns without effect |
| BluefsMeaning.TruncateIsDurable | bluestore/bluefs.cc:1251-1307 | the next mount gives the file exactly that size and those bytes |
| BluefsMeaning.PreallocateMeans | bluestore/bluefs.cc:1733-1747 | the size stays, placed bytes stay, new ones lie where the allocator put them |
| BluefsMeaning.PreallocateIsDurable | bluestore/bluefs.cc:1733-1747 | without the hazard the next mount gives the file with the reserved space |
| BluefsMeaning.FsyncMeans | bluestore/bluefs.cc:1053-1071 | the effect of the flush, after which the file is not dirty |
| BluefsMeaning.FsyncIsDurable | bluestore/bluefs.cc:1053-1071 | after a successful sync of a linked file the next mount gives it as it is |
| BluefsObject.SplitExtents | bluestore/bluefs.cc:1269-1291 | the truncation loop keeps the addresses below the new size and collects exactly the rest |
| BluefsObject.Replay | bluestore/bluefs.cc:611-862 | the nested replay loops compute the specified replay, early end and errors included |
| BluefsObject.SweepOrphans | bluestore/bluefs.cc:865-879 | the sweep keeps exactly the files with links |
| BluefsObject.BlueFS.Mkdir | bluestore/bluefs.cc:1422-1431 | the step of the state machine and the meaning of MkdirMeans; memory and replay agree |
| BluefsObject.BlueFS.Rmdir | bluestore/bluefs.cc:1433-1444 | the step of the state machine and the meaning of RmdirMeans; memory and replay agree |
| BluefsObject.BlueFS.OpenForWrite | bluestore/bluefs.cc:1343-1399 | the state machine's step and the meaning of OpenMeans; memory and replay agree and the next mount brings the file back; an error changes nothing |
| BluefsObject.BlueFS.DropLink | bluestore/bluefs.cc:1207-1233 | the state machine's step; the last link marks the file deleted and takes it out of the list of files to be logged |
| BluefsObject.BlueFS.Unlink | bluestore/bluefs.cc:1235-1249 | the state machine's step and the meaning of UnlinkMeans; memory and replay agree, and neither replay nor the next mount has the file |
| BluefsObject.BlueFS.Rename | bluestore/bluefs.cc:1309-1341 | the state machine's step and the meaning of RenameMeans; memory and replay agree |
| BluefsObject.BlueFS.FlushRange | bluestore/bluefs.cc:415-453 | the state machine's step and the meaning of FlushMeans: the new size, where every byte lies, and when the file becomes dirty; memory and replay still agree |
| BluefsObject.BlueFS.Truncate | bluestore/bluefs.cc:1251-1307 | through the split loop the state machine's step and the meaning of TruncateMeans: the new size, the bytes below it, nothing beyond; the next mount gives a linked file exactly that size |
| BluefsObject.BlueFS.Preallocate | bluestore/bluefs.cc:1733-1747 | the state machine's step and the meaning of PreallocateMeans; memory and replay agree afterwards if and only if the call is not hazardous, and then the next mount has the reserved space |
| BluefsObject.BlueFS.SignalDirtyToLog | bluestore/bluefs.cc:486-494 | the state machine's step; the next log flush has exactly this file to write |
| BluefsObject.BlueFS.ConsumeDirtyFiles | bluestore/bluefs.cc:496-506 | the loop logs one incremental update per dirty file and resets its mark |
| BluefsObject.BlueFS.FlushAndSyncLog | bluestore/bluefs.cc:508-565 | unless already there, the pending operations become the next numbered transaction of the log; files and directories stay, and memory and replay still agree |
| BluefsObject.BlueFS.Fsync | bluestore/bluefs.cc:1053-1071 | the state machine's step and the meaning of FsyncMeans; agreement afterwards if and only if the call is not hazardous; a linked file is then brought back by the next mount, and if it had something to write the log alone replays to it |
| BluefsObject.BlueFS.Remount | bluestore/bluefs.cc:949-1035 | succeeds exactly when replay does; from a state where memory and replay agree it succeeds and restores the tree and every clean linked file |
| BluefsCompact.DumpLinks | bluestore/bluefs.cc:1522-1538 | for any order of directories and names, replaying the dump gives the same tree and one link per file |
| BluefsCompact.DumpMetadata | bluestore/bluefs.cc:1522-1538 | replaying the dump rebuilds tree and nodes although links precede updates; the sweep drops exactly the unlinked files |
| Freelist.MergeXor | kv/merge_op/xor_merge_op.h:20-28 | the merge loop is the bytewise exclusive or of the common prefix |
| Freelist.BitsBetween | bluestore/bitmap_freelist_manager.cc:230-295 | the bit loops set exactly the bits of the range in a key's value |
| Freelist.SubmitTransaction | kv/mem/mem_db.cc:239-265 | a transaction is its merges one after the other, missing keys included |
| Freelist.ApplyFlips | kv/mem/mem_db.cc:352-380 | a transaction flips each block by the parity of its merges, whatever the store held |
| FreelistManager.Xor | bluestore/bitmap_freelist_manager.cc:230-295 | first, middle and last keys together flip exactly the blocks of the range, and touch only their keys |
| FreelistManager.RangeFlips | bluestore/bitmap_freelist_manager.cc:216-228 | on every store the flat bitmap changes exactly in the range |
| FreelistManager.ReleaseUndoesAllocate | bluestore/bitmap_freelist_manager.cc:216-228 | allocating and releasing a range restores the flat bitmap |
| FreelistManager.MergesCommute | kv/merge_op/xor_merge_op.h:20-28 | any reordering of the merges gives the same flat bitmap |
| FreelistEnumerate.BlockCount | bluestore/bitmap_freelist_manager.cc:359-366 | the block count rounded up to whole keys |
| FreelistEnumerate.RangeKeepsWellFormed | bluestore/bitmap_freelist_manager.cc:216-228 | allocating or releasing usable blocks keeps block 0 and the blocks past the end set |
| FreelistEnumerate.Create | bluestore/bitmap_freelist_manager.cc:73-116 | the new bitmap has exactly block 0 and the blocks past the end of the device set |
| FreelistScan.RunsAreMaximal | bluestore/bitmap_freelist_manager.cc:140-214 | the specified runs are ascending, inside the device, cannot be extended, and hold exactly the free blocks |
| FreelistScan.WellFormedBitmap | bluestore/bitmap_freelist_manager.cc:73-116 | a well-formed store meets what that needs |
| FreelistScan.Enumerator.SeekFree | bluestore/bitmap_freelist_manager.cc:159-184 | the first phase stops at the next free block, present or missing key |
| FreelistScan.Enumerator.SeekSet | bluestore/bitmap_freelist_manager.cc:185-213 | the second phase stops at the next allocated block, across missing keys |
| FreelistScan.Enumerator.EnumerateNext | bluestore/bitmap_freelist_manager.cc:140-214 | one call returns the next maximal free run in bytes, or false when none is left |
| FreelistScan.EnumerateAll | bluestore/bitmap_freelist_manager.cc:132-214 | repeated calls after a reset return exactly the maximal free runs, in order, each once |
| FreelistScan.RunInBytes | bluestore/bitmap_freelist_manager.cc:140-214 | a returned offset and length are the run's first block and block count times the block size |
| KeyCodec.RoundTrip | bluestore/bitmap_freelist_manager.cc:14-36 | decoding a key gives back the offset |
| KeyCodec.OrderPreserving | bluestore/bitmap_freelist_manager.cc:14-36 | the order of keys is the order of offsets, and keys are distinct |
| KeyCodec.EightBytes | bluestore/bitmap_freelist_manager.cc:14-36 | eight bytes hold exactly the 64-bit offsets |
| Ranges.CanonicalUnique | blk/avl_allocator.cc:88-121 | the coalesced form of a set of free bytes is unique |
| AvlIndex.IndexRemove | blk/avl_allocator.cc:169-173 | erasing a range keeps the size index and the counter those of the remaining ranges |
| AvlIndex.IndexAdd | blk/avl_allocator.cc:175-182 | inserting a range keeps the size index and the counter those of all ranges |
| AvlIndex.SizeIndexUnique | blk/avl_allocator.h:19-36 | the size order is total, so the size index of a set of ranges is unique |
| AvlAllocator.AvlAllocator.SizeTreeRemove | blk/avl_allocator.cc:169-173 | the counter never underflows, so the assertion does not fire |
| AvlAllocator.AvlAllocator.AddToTree | blk/avl_allocator.cc:88-121 | adds exactly the range and stays sorted, disjoint and coalesced, in all four merge cases |
| AvlAllocator.AvlAllocator.ProcessRangeRemoval | blk/avl_allocator.cc:130-154 | removes exactly the range, leaving none, one or two pieces |
| AvlAllocator.AvlAllocator.RemoveFromTree | blk/avl_allocator.cc:156-167 | succeeds exactly when one range holds all of it, else changes nothing |
| AvlAllocator.AvlAllocator.InitAddFree | blk/avl_allocator.cc:381-386 | exactly the range becomes free |
| AvlAllocator.AvlAllocator.InitRmFree | blk/avl_allocator.cc:388-393 | a range that is wholly free stops being free, any other request changes nothing |
| AvlAllocator.WithinOneRange | blk/avl_allocator.cc:156-167 | in coalesced form bytes are all free exactly when one range holds them |
| AvlAllocator.AvlAllocator.PickBlockFits | blk/avl_allocator.cc:74-86 | the shortest range that holds an aligned block; a miss if and only if none of the ranges looked at does |
| AvlAllocator.SearchBestFit | blk/avl_allocator.cc:74-86 | the loop over the size index misses if and only if no range too short, nor any of as many more as the limit allows, holds the block |
| AvlAllocator.AvlAllocator.PickBlockAfter | blk/avl_allocator.cc:35-72 | a hit is the aligned start of the first range, from the cursor on and wrapping around, that holds the block; the cursor moves behind it |
| AvlAllocator.AvlAllocator.PickHalving | blk/avl_allocator.cc:278-286 | the size is the first of the halves whose search hits, and the block lies in the shortest range that holds it; gives up if and only if the search for each size misses |
| AvlAllocator.AvlAllocator.AllocateSingle | blk/avl_allocator.cc:245-290 | one block that was free, aligned and no longer than wanted: by best fit from the first half that hits, or, with ample space only, all that is wanted by first fit from the cursor; none only if every best-fit search misses, and when space is scarce exactly then |
| AvlAllocator.AvlAllocator.Allocate | blk/avl_allocator.cc:292-325 | disjoint, aligned, capped, formerly free blocks; their sum is the result; exactly they leave the free set; each block is the one that the ranges left by those before it call for, the shortest range that fits when space is scarce; unit multiples if the request fits the cap or the cap is one; it falls short only when every best-fit search for the rest misses |
| AvlAllocator.FirstPick | blk/avl_allocator.cc:245-286 | what that says about the first block, on the index as it was |
| AvlAllocator.CapFits | blk/avl_allocator.cc:310-325 | blocks fit 32-bit lengths, and the cap is the one asked for unless it does not |
| AvlAllocator.ExhaustedUnit | blk/avl_allocator.cc:245-290 | for a unit multiple those searches include the one for a single unit |
| AvlAllocator.MissedMeansNone | blk/avl_allocator.cc:74-86 | when the search covers the whole index, a miss for one unit means that no aligned unit is free |
| AvlAllocator.SearchLimitMisses | blk/avl_allocator.cc:22-29 | an allocator on which `allocate` returns no space while an aligned unit is free |
| AvlAllocator.UnevenBlock | blk/avl_allocator.cc:310-325 | for every request above a cap that is no unit multiple, an allocator that returns a block whose length is none |
| AvlAllocator.IntervalInsert | blk/extent_types.h:49-68 | inserting a disjoint interval keeps the canonical union |
| AvlAllocator.Collect | blk/allocator.cc:22-27 | the collected set covers exactly the given blocks, in any order |
| AvlAllocator.AvlAllocator.ReleaseSet | blk/avl_allocator.cc:327-334 | exactly the bytes of the set become free |
| AvlAllocator.AvlAllocator.Release | blk/allocator.cc:22-27 | exactly the given blocks become free |
| AvlAllocator.ReleaseRestores | blk/avl_allocator.cc:327-334 | releasing any rearrangement of allocated blocks gives back both indexes and the counter |
| AvlAllocator.AllocateThenRelease | blk/avl_allocator.cc:292-334 | the same for the two calls in sequence |
| Slot.WholeSlot | blk/bitmap_allocator.h:25-26 | a slot equals the two constants exactly when none or all of its bits are set |
| Slot.EntryPut | blk/bitmap_allocator.h:216-238 | writing a two-bit entry changes that entry alone |
| Slot.MaskRoundsDown | common/intarith.h:54-58 | masking with the complement of a power of two rounds down to its multiple |
| Slot.RoundsUpByMask | common/intarith.h:71-75 | negate, mask and negate rounds up to a multiple, modulo 2^64 |
| Slot.IsPowerOfTwo | common/intarith.h:49-52 | the bit test picks out exactly the powers of two |
| BitmapLevels.GroupByEntries | blk/bitmap_allocator.h:484-502 | a group has a free unit exactly when one of its entries is not full |
| BitmapLevels.AggregateStep | blk/bitmap_allocator.h:207-213 | the running and/or over slots say whether all or none of their bits are set |
| BitmapUnits.RoundsUp | blk/bitmap_allocator.h:39-39 | the unit conversions used in the contracts are the source's `round_up` |
| BitmapUnits.AlignsDown | blk/bitmap_allocator.h:40-40 | and its `align_down` |
| BitmapUnits.Coarser | blk/bitmap_allocator.h:441-449 | group numbers computed from bytes are those computed from units |
| BitmapAllocator.Bitmap.constructor | blk/bitmap_allocator.h:143-166 | cleared levels that cover the rounded-up capacity |
| BitmapAllocator.Bitmap.MarkAllocL0 | blk/bitmap_allocator.h:168-183 | bit loops and whole-slot loop clear exactly the range |
| BitmapAllocator.Bitmap.MarkFreeL0 | blk/bitmap_allocator.h:185-200 | bit loops and whole-slot loop set exactly the range |
| BitmapAllocator.Bitmap.Summarise | blk/bitmap_allocator.h:207-225 | the entry is full, partial or free exactly as its 512 units say |
| BitmapAllocator.Bitmap.RefreshEntry | blk/bitmap_allocator.h:207-239 | one entry rewritten, both counters still the entry counts |
| BitmapAllocator.Bitmap.MarkL1OnL0 | blk/bitmap_allocator.h:202-240 | every entry is exact afterwards if those outside the range were |
| BitmapAllocator.Bitmap.MarkL2OnL1 | blk/bitmap_allocator.h:484-502 | each bit of the range says whether its group has a free unit |
| BitmapAllocator.Bitmap.FreeRange | blk/bitmap_allocator.h:249-262 | exactly the units become free and all levels are exact |
| BitmapAllocator.Bitmap.MarkFree | blk/bitmap_allocator.h:505-511 | frees the units and adds the length modulo 2^64 |
| BitmapAllocator.Bitmap.InitAddFree | blk/bitmap_allocator.cc:58-65 | frees exactly the whole units inside; levels and total stay exact if and only if the rounded start does not pass the end |
| BitmapAllocator.SubUnitRangeWraps | blk/bitmap_allocator.cc:58-65 | an allocator that a one-byte range leaves with a wrong total and nothing free |
| BitmapAllocator.SubUnitRangeSetsGroup | blk/bitmap_allocator.cc:58-65 | an allocator on which such a range sets the level 2 bit of a group with nothing free |
| BitmapAllocator.Bitmap.Release | blk/bitmap_allocator.h:526-536 | exactly the units of the set become free; levels and total exact |
| BitmapAllocator.Bitmap.ClaimLeftL0 | blk/bitmap_allocator.cc:85-122 | takes exactly the maximal free run that ends at the position, despite skipping whole slots |
| BitmapAllocator.Bitmap.ClaimRightL0 | blk/bitmap_allocator.cc:124-163 | takes exactly the maximal free run that begins at the position |
| BitmapAllocator.Bitmap.ClaimLeft | blk/bitmap_allocator.cc:165-205 | takes that run, returns its bytes, and keeps all levels and the total exact |
| BitmapAllocator.Bitmap.ClaimRight | blk/bitmap_allocator.cc:177-220 | takes that run, returns its bytes, and keeps all levels and the total exact; nothing beyond the last unit |
| BitmapAllocator.RightStaysInside | blk/bitmap_allocator.cc:207-220 | the refresh of level 2 reads only groups that exist if and only if the guard of the claim holds |
| BitmapAllocator.RightClaimOverruns | blk/bitmap_allocator.cc:207-220 | an allocator on which the guard fails |
| BitmapAllocator.StateUnique | blk/bitmap_allocator.h:202-240 | levels and counters are determined by which units are free |
| BitmapAllocator.ClaimThenRelease | blk/bitmap_allocator.cc:193-205 | a claim followed by a release of the same run restores every level and counter |
| JournalCodec.RecordRoundTrip | btier/journal.cc:90-150 | parsing undoes printing for every record, wherever it stands in the buffer |
| JournalCodec.ParseRoundTrip | btier/journal.cc:90-150 | printing undoes parsing: whatever was read as a record is its printed form |
| JournalCodec.RecordLayout | btier/journal.cc:90-150 | operation codes, and where each field of each kind of record stands |
| JournalCodec.FieldByte | btier/journal.cc:90-150 | changing one byte of a field gives the printed form of another record of the same kind |
| JournalCodec.JournalFormatIsFaithful | btier/journal.cc:90-150 | the format has every property the scan relies on |
| JournalScan.Parse | btier/journal.cc:432-484 | the parsing loop computes the specified scan |
| JournalScan.ScanPadding | btier/journal.cc:444-453 | zero padding, even shorter than a header, is skipped to the block boundary |
| JournalScan.ScanTxn | btier/journal.cc:455-482 | one transaction gives back its records if its commit record has its number and its checksum, and nothing otherwise |
| JournalScan.ImageRoundTrip | btier/journal.cc:401-485 | parsing any padded transactions gives the concatenation of their records |
| JournalScan.ScanStored | btier/journal.cc:401-485 | an image of transactions with any commit records gives, in order, the records of exactly those whose commit record is their own |
| JournalDamage.RecoveryIsSound | btier/journal.cc:432-484 | over every buffer, recovery reads past the end or returns exactly the groups of records that stand between a begin and a commit of one number and have the checksum of that commit |
| JournalDamage.DamageIsLocal | btier/journal.cc:455-482 | whatever replaces one transaction of an image, the others are recovered, and its own records if and only if number and checksum match |
| JournalDamage.OneByteDropsOne | btier/journal.cc:455-482 | changing one byte of a field of any record makes recovery drop exactly the transaction that holds it |
| JournalDamage.JournalFormatIsSensitive | btier/journal.cc:90-150 | the actual format and CRC-32C meet what that needs |
| JournalDamage.JournalBadByteLosesOne | btier/journal.cc:373-485 | on the device: one bad byte of a record, and recovery loses that transaction alone |
| Journal.EventHolds | btier/journal.cc:270-371 | every commit, checkpoint, trim and crash keeps the device holding the expected transactions |
| Journal.RecoveryIsExact | btier/journal.cc:373-485 | after any run with crashes, recovery returns the last checkpoint and every later committed transaction, in order, and nothing else |
| Journal.JournalRecoveryIsExact | btier/journal.cc:373-485 | the same for the actual record format with CRC-32C |
| Journal.CrashIsAtomic | btier/journal.cc:210-239 | for a crash in a commit and in a checkpoint, with torn data writes, recovery yields the old list or the complete new one |
| JournalObject.JournalStore.Append | btier/journal.cc:258-268 | the record joins its transaction under its number; unknown transactions are refused |
| JournalObject.JournalStore.BeginTxn | btier/journal.cc:250-256 | a fresh number and an empty transaction under it |
| JournalObject.JournalStore.PadAndWrite | btier/journal.cc:219-239 | where the padded bytes go and where the write head stands |
| JournalObject.JournalStore.CommitTxn | btier/journal.cc:270-317 | the transaction joins the committed list, on the device too; only its own bytes and the write head change |
| JournalObject.JournalStore.TakeCheckpoint | btier/journal.cc:319-371 | the state becomes the only transaction recovery sees, written behind the old ones |
| JournalObject.JournalStore.TrimLog | btier/journal.cc:491-500 | recovery sees nothing written before; the write head and the data stay |
| JournalObject.JournalStore.Recover | btier/journal.cc:373-485 | returns exactly the records of the committed list |
| JournalObject.ReadRange | btier/journal.cc:414-430 | the chunked read gives the whole range, around the end of the data area too |
| ExtentMetrics.PackFields | btier/btier_types.h:63-74 | every field reads back, masked to its width |
| ExtentMetrics.PackBitsIsPack | btier/btier_types.h:63-67 | the source's masks, shifts and ors compute the arithmetic form |
| ExtentMetrics.WordRoundTrip | btier/btier_types.h:63-74 | packing keeps every field, masked to its width |
| ExtentMetrics.WordsAreFields | btier/btier_types.h:63-74 | words and their fields correspond one to one |
| ExtentProtocol.StepKeeps | btier/extent_map.cc:159-273 | every step of every thread keeps the protocol's invariant |
| ExtentProtocol.OnlyLockedOperations | btier/extent_map.cc:159-203 | state and generation change only when a locked operation finishes, and as it says |
| ExtentProtocol.EveryRunIsLinear | btier/extent_map.cc:73-435 | every interleaving equals the finished locked operations in sequence: no effect is lost |
| ExtentProtocol.GenerationCounts | btier/extent_map.cc:73-83 | the generation counts the operations that took effect, modulo 2^32 |
| ExtentProtocol.CommitIff | btier/extent_map.cc:355-410 | a migration commits if and only if the effects since it began number a multiple of 2^32 |
| ExtentProtocol.CommitMeansUntouched | btier/extent_map.cc:355-410 | with fewer than 2^32, a commit means that no append, dead mark or commit took effect, and the source was still in place |
| ExtentProtocol.AtMostOneCommit | btier/extent_map.cc:382-410 | at most one handle per starting generation commits |
| ExtentProtocol.AppendInside | btier/extent_map.cc:220-249 | an accepted slot, with the header, lies inside the extent exactly when its 32-bit sum does not overflow |
| ExtentProtocol.AppendOverflows | btier/extent_map.cc:220-249 | a request for which it overflows |
| ExtentProtocol.SlotsFollow | btier/extent_map.cc:220-249 | without overflow no two slots of a history overlap |
| ExtentProtocol.UsedCounts | btier/extent_map.cc:220-249 | over every history the used bytes are the bytes of the accepted appends, modulo 2^32 |
| ExtentProtocol.LiveCounts | btier/extent_map.cc:220-273 | without overflow, live plus dead bytes are at least the placed ones, and equal if and only if no dead mark was longer than the bytes then live |
| ExtentProtocol.DeadTooLong | btier/extent_map.cc:251-273 | a history in which one was |
| ExtentObject.ExtentEntry.AppendSlot | btier/extent_map.cc:220-249 | refused exactly when not active or too large, and then nothing changes; else used and live bytes both grow by the size, the slot lies after every slot of the history unless some append overflowed, and the account of the history holds |
| ExtentObject.ExtentEntry.MarkDeadSlot | btier/extent_map.cc:251-273 | lowers the live bytes; every handle that was good until now is refused from now on |
| ExtentObject.ExtentEntry.BeginMigration | btier/extent_map.cc:355-378 | refused exactly when not active; the handle is the count of effects in the history modulo 2^32 and the present place |
| ExtentObject.ExtentEntry.CommitMigration | btier/extent_map.cc:382-410 | succeeds if and only if the effects of the history since the handle's migration began number a multiple of 2^32; with none the place left is the handle's source |
| ExtentObject.ExtentEntry.AbortMigration | btier/extent_map.cc:412-428 | appends are possible again; generation and the effects since any handle are as before, so handles stay as good as they were |
| ExtentObject.ExtentEntry.CheckMigration | btier/extent_map.cc:430-435 | true if and only if the effects of the history since the handle's migration began number a multiple of 2^32 |
| ExtentObject.ExtentEntry.RecordIo | btier/extent_map.cc:159-184 | the access counter moves, the write counter exactly on writes, both saturate; randomness, state, generation and entry do not |
| ExtentObject.ExtentEntry.SetRandomness | btier/extent_map.cc:186-203 | six bits of the argument replace the field; counters, state, generation and entry stay |
| ExtentObject.HandleIsGood | btier/extent_map.cc:355-435 | in every history a handle matches the generation if and only if the effects since number a multiple of 2^32 |
| ExtentObject.Migrate | btier/extent_map.cc:355-410 | begin, I/O accounting and commit move the extent and free its old place |
| ExtentObject.MigrateDisturbed | btier/extent_map.cc:251-410 | with a dead mark in between the commit is refused and the extent stays |
| Denc.VarintRoundTrip | common/denc.h:274-298 | decoding gives back every value and the bytes after it |
| Denc.VarintDigits | common/denc.h:274-285 | the bytes are the base-128 digits of the value, lowest first, without a leading zero; all but the last have the high bit |
| Denc.VarintLength | common/denc.h:274-285 | at most k bytes exactly for values below 128^k |
| Denc.VarintBound | common/denc.h:269-285 | the reserved size suffices for 32-bit values, and for 64-bit values exactly below 2^63 |
| Denc.WriteVarint | common/denc.h:274-285 | the encoding loop computes the specified bytes |
| Denc.ReadVarint | common/denc.h:287-298 | the decoding loop computes the specified value modulo 2^64 |
| Denc.SignedRoundTrip | common/denc.h:304-328 | the word is non-negative exactly within 62 bits and sign, and then the value reads back in nine bytes |
| Denc.SignedForm | common/denc.h:304-328 | the lowest bit of the first byte is the sign, the digits make twice the magnitude and the sign |
| Denc.NegativeNeverEnds | common/denc.h:274-285 | on a negative word the shifting loop never reaches zero |
| Denc.LowzRoundTrip | common/denc.h:335-357 | the value reads back if and only if its shifted form fits into 62 bits; always within ten bytes |
| Denc.LowzForm | common/denc.h:335-345 | the two low bits of the first byte count the zero nibbles removed: all of them, up to three |
| Denc.LbaRoundTrip | common/denc.h:413-487 | every 64-bit address reads back, in all four forms |
| Denc.LbaForm | common/denc.h:417-453 | the tag in the first byte says how many zero nibbles were cut, as many of three, four and five as there are; four bytes exactly when the rest fits beside the tag |
| Denc.LbaBound | common/denc.h:413-453 | never more than ten bytes |
| Denc.WriteLba | common/denc.h:417-453 | the encoding steps compute the specified bytes |
| Crc32.MakeTable | common/crc32.cc:20-32 | entry i is i shifted eight times through the divisor |
| Crc32.TableStep | common/crc32.cc:41-44 | one table step is eight steps of the bit-serial division |
| Crc32.SoftwareFallback | common/crc32.cc:39-46 | the table method equals the bit-serial division for every message and seed |
| Crc32.CalcCrc32 | common/crc32.cc:48-67 | the same for both paths; a null buffer counts as zero bytes |
| Crc32.Chaining | common/crc32.cc:39-67 | the checksum of a concatenation is that of the second part seeded with that of the first |
| Crc32.DetectsOneByte | common/crc32.cc:39-46 | any change confined to one byte changes the checksum |
| Castagnoli.DivisorPowers | common/crc32.cc:14 | the divisor has exactly the powers of the Castagnoli polynomial |
| Castagnoli.CheckValue | common/crc32.cc:39-46 | the checksum of the nine digits is the check value of CRC-32C, 0xE3069283 |
| Castagnoli.Residue | common/crc32.cc:39-67 | a message followed by its checksum has the residue of CRC-32C as its checksum, for every message and seed |

## Left out

- The BlueFS log's own file (ino 1), log extension, the byte encoding and block padding of log transactions, and crashes without an unmount: replay stops at the log size recorded in the superblock.
- Files created by `lock_file`, log compaction apart from its metadata dump, and the copy constructor of `bluefs_fnode_t`: file nodes are values.
- Release of file space to the allocators, readers, caches and the data of files: the log carries only metadata.
- BluefsObject.BlueFS.OpenForWrite: requires that a directory entry names an existing file, which the invariant `Inv` gives in every reachable state.
- Freelist.SubmitTransaction: models the merge operations of a transaction, the only ones that touch the bitmap; plain writes and deletions are left out.
- `_xor` of an empty range and the configuration records of the free list; the key prefixes of `MemDB`.
- FreelistScan.Enumerator.EnumerateNext: requires a store unchanged since the reset, with block 0 and the blocks past the end set, as `Create` and `RangeKeepsWellFormed` give.
- AvlAllocator.AvlAllocator.PickBlockAfter: may give up at any point where the source has a count or byte cutoff; a miss then means nothing, and the halving search covers it.
- AvlAllocator.AvlAllocator.Allocate: 64-bit overflow of byte sums is not modelled, and a cap that rounds down to nothing (a block size above 32 bits), for which the source has no block to look for, is excluded.
- The capped AVL mode, spill-over and `HybridAllocator`; `interval_set::erase`, and `insert` of an interval that overlaps one already present.
- The bitmap allocator's own `allocate` path and `_mark_allocated`, which leave the summary levels coarse by design; `foreach` and statistics.
- BitmapAllocator.Bitmap.Release: requires ranges of whole units that are not free, since the source counts bytes but frees units.
- BitmapAllocator.Bitmap.ClaimLeft: requires an offset of at least one unit; at zero the source shifts by a negative amount.
- JournalObject.JournalStore.CommitTxn: requires that the write stays below the end of the data area; wrapped writes are not modelled.
- JournalObject.JournalStore.TakeCheckpoint: requires the same.
- Journal wrap-around, failed device writes and superblock corruption; a write that would reach the end of the data area is outside `Journal.Legal`.
- JournalObject.JournalStore.Append: requires one of the five data operations, which are all that the tiering store appends; the framing records are the journal's own.
- The lock-free step of `ExtentProtocol` compares whole words and may fail spuriously; memory orderings weaker than sequential consistency on one word, removal of extents, free lists and deferred frees are not modelled.
- Denc.ReadVarint: encodings longer than ten bytes shift by more than the width of the word, which is undefined in the source; the model drops those bits.
- Denc.SignedRoundTrip: leaves out the most negative 64-bit value, whose negation is undefined in the source; `denc_signed_varint_lowz` is not modelled.
- Scoring, fragmentation, volume selection, devices, asynchronous I/O, RocksDB, logging, formatting and configuration.
- The key map of the tiering store and `armor` encoding, which would add only easier members.
