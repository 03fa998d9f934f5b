# Storage and framing of the Morse Micro SDK, modelled in Dafny

This project models three components and proves what they promise: littlefs (`littlefs/lfs.c` with its helpers),
a filesystem that survives power loss; mmconfig (`mmconfig/mmconfig.c`), a key/value store in two flash partitions;
and SLIP (`slip/slip.c`), byte-wise packet framing. `dafny verify dfyconfig.toml` checks everything. Nothing of the
original is executed.

## How it is organised

| file | subject |
|---|---|
| `Bits`, `CtzIndex`, `CtzList`, `FileWrite` | bit arithmetic, position arithmetic, the skip list of file blocks, and copy-on-write files on top of it |
| `MetadataLog`, `Compaction`, `Tags` | the log of a directory, lookup in it and rewriting of it, and the 32-bit tags it is made of |
| `MetadataPair`, `PairRuns`, `PairDevice` | power-loss atomicity of a pair of blocks: devices and scans; what commits mean, over whole runs; commits issued operation by operation |
| `CommitCrc`, `Crc` | how a commit is padded, and its checksum |
| `StateWord`, `GlobalState`, `Allocator`, `DeviceCache`, `TailList` | the bits of the global state, the state scattered over all pairs, block allocation, cached reads, cycle detection |
| `ConfigFormat`, `ConfigUpdate`, `ConfigCrash`, `ConfigRuns`, `ConfigStore` | mmconfig: flash image, meaning of an update, power loss, whole runs, and the store with its staging buffer |
| `Slip` | encoder, decoder and unreliable transport |
| `Basics` | octets, 32-bit numbers, optional values |

Algorithms that the source runs step by step on fields, buffers and loops are classes and methods here; each is proved
against a function on values, and the laws are proved about that function. Directory contents are defined by a plain
forward replay of the log; file contents by looking up every position; checksums by bitwise division.

## Assumptions

* `MetadataPair`, `PairRuns`, `PairDevice`: a block is a sequence of units programmed in order. Power loss leaves the
  units done so far, perhaps one unreadable unit, or a block whose erase was cut off and that shows no commit it did not
  show before. A unit that is programmed twice without an erase becomes unreadable. The checksum is ideal: it accepts
  exactly what it was computed over. What holds for the real checksum is in `Crc`.
* mmconfig: the predicate `ConfigFormat.ChecksumTells` says that the checksum of the records differs from that of what
  a walk finds when only some bytes were written; only updates cut by power loss need it. A write that is cut off leaves
  a prefix of its bytes; the erase of a block happens or does not. Partitions are whole erase blocks.
* The mmconfig lock is held. The device does what it is told, except where failures are parameters: power, read errors
  (`DeviceCache`), transport results (`Slip`), traversal errors (`Allocator`).

## Where code and promise part

* `slip_tx` is documented to return 0 on success and an error otherwise. It returns the result of the last byte of the
  packet, 0 for an empty one: `Slip.ResultIsAboutTheLastByte` gives the exact condition, `Slip.ErrorForgotten` a lost
  byte.
* `mmconfig_update_secondary_image` returns success without swapping the partitions if the new image does not validate.
  On fault-free flash, for an update of data up to 65535 bytes that does not fill the partition to the last byte, that
  happens exactly when some data is longer than 65279 bytes (`ConfigRuns.UpdateSafe`, `ConfigRuns.LongDataIsDropped`).
* The mmconfig space check counts neither the terminator nor, since it reads lengths back from a 16-bit field, multiples
  of 65536 bytes of data; all bytes are written. `ConfigUpdate.RoomForStream` says exactly when an update fits.
  `ConfigUpdate.ExactFillOverruns` and `ConfigUpdate.LongDataOverruns` are updates that pass the check and run past the
  end of the secondary partition, which may lie in front of the primary one (`ConfigCrash.OpsFit`). Data of 65536 bytes
  or more that does fit is read back cut short, and what lies behind the cut as records, if it spells any:
  `ConfigUpdate.LongDataSpillsOver`.
* `mmconfig_eraseall` is not atomic: `ConfigRuns.EraseAllNotAtomic`. The version counter may not wrap:
  `ConfigRuns.RolloverLosesUpdate`.
* The header of mmconfig says that a size of zero may mean deletion; in the code only a missing data pointer does, and
  empty data is stored (`ConfigUpdate.EmptyDataIsStored`). The model follows the code.
* `lfs_npw2` without compiler builtins answers 1 for 1: `Bits.PortableNpw2`. Only an assertion of `lfs_init`
  asks for that, for blocks of more than 2^31+7 bytes (`littlefs/lfs.c:4076`), and it holds either way.
* `lfs_bd_read` need not terminate when program data is pending from inside a read unit on: `DeviceCache.EndsExactly`
  says exactly when, `DeviceCache.UnalignedPcacheStalls` gives an input. It is an input of the function, not one that
  its present callers are known to make: those that pass a program cache read at most 8 bytes at once
  (`littlefs/lfs.c:2925`, `3174`, `4584`), so that only read units of 2 to 8 bytes come into question.
* A failed load leaves the read cache claiming bytes that it does not hold, unless they happen to be the same
  (`DeviceCache.LoadCache`); a later read of them succeeds and returns them (`DeviceCache.Retry`).
* If a pair is to be dropped and the commit that unlinks it fails, its piece of global state has been taken into memory
  already and is not given back, so that the next commit elsewhere saves a wrong sum:
  `GlobalState.Filesystem.DropFails` says exactly when, `GlobalState.FailedDropRevivesMove` shows it.
* If a compaction fails after a split, state saved in the abandoned pairs is lost from memory:
  `GlobalState.Filesystem.AbandonTails` says exactly when, `GlobalState.AbandonedStateIsLost` shows it.
* A failed traversal drops the lookahead window, which counts as an acknowledgement although blocks may be in flight:
  `Allocator.Free.Drop`, and `Allocator.HandedOutAgain` for a block handed out twice.
* `lfs_alloc` may report no space although a block is free, if that block was freed after it was passed over:
  `Allocator.Free.NoSpaceMeans` says exactly when, `Allocator.SecondAllocationFails` shows it. The first allocation
  after an acknowledgement, on which file writes rely, is right.
* A commit that fails for lack of space may leave the erased mark in memory wrong, so that the next one programs units
  that are not erased; its own check then sends it to a compaction (`PairRuns.StepAtomic`, `PairRuns.AfterGivenUp`,
  `PairRuns.GivenUp`). What a mount finds is right throughout (`PairRuns.RunAtomic`).
* The repair of orphans clears their count if and only if there were at most 128 of them: `StateWord.DeorphanClears`.
  No caller is known to let it get that far.
* While a superblock is needed, the bit that stands for orphans on disk may be set without any, so that a mount counts
  one: `GlobalState.MountTells`.
* With a metadata limit below the block size, the last bytes below the limit cannot be closed: `CommitCrc.CloseWithin`.

## Model

| member | source | states |
|---|---|---|
| `Bits.PortableNpw2` | littlefs/lfs_util.h:127-141 | the portable fallback, step by step, yields the exponent of the smallest power of two that is at least a, if and only if a is at least 2 (for 1 it answers 1 instead of 0) |
| `Bits.CtzFactor` | littlefs/lfs_util.h:143-150 | ctz(n) names the largest power of two that divides n, and it is at most log2(n) |
| `Bits.PortableCtz` | littlefs/lfs_util.h:143-150 | the portable fallback, the and of a number and its negative put through npw2, counts the trailing zeros, for every positive 32-bit number |
| `Bits.PortablePopc` | littlefs/lfs_util.h:152-162 | the portable fallback, masked sums and one multiplication, counts the one bits of every 32-bit number; no sum but the last overflows |
| `Bits.PopcSucc` | littlefs/lfs_util.h:152-162 | popc(n+1) + ctz(n+1) = popc(n) + 1, the identity under the closed form of the block index |
| `CtzIndex.StartClosed` | littlefs/lfs.c:2756-2767 | summing block_size - 4*(ctz(i)+1) over the first n blocks gives n*(block_size-8) + 8 + 4*popc(n-1) |
| `CtzIndex.IndexLocates` | littlefs/lfs.c:2756-2767 | for every 32-bit position and block size of at least 128, the closed form is the index of the block whose range of positions, found by summing capacities, holds the position |
| `CtzIndex.LocatesOnly` | littlefs/lfs.c:2756-2767 | no other block and offset locate the same position |
| `CtzIndex.StartIncreasing` | littlefs/lfs.c:2756-2767 | blocks begin at strictly increasing positions |
| `CtzIndex.LfsCtzIndex` | littlefs/lfs.c:2756-2767 | computed in 32-bit unsigned arithmetic without any wrap-around, block index and offset are those found by summing capacities, and the offset lies behind the pointers and inside the block |
| `CtzList.PrefixIsList` | littlefs/lfs.c:2769-2801 | every prefix of a skip list is a skip list: all pointers of its blocks stay inside it |
| `CtzList.TruncatedIsFile` | littlefs/lfs.c:3680-3693 | cutting a file at a new size leaves a list with exactly the blocks that the new size needs |
| `CtzList.SkipLands` | littlefs/lfs.c:2788-2791 | a hop never overshoots the target and only uses a pointer that the block has |
| `CtzList.HopBudget` | littlefs/lfs.c:2785-2801 | each hop lowers the remaining distance or the remaining alignment by half, so the hops still needed stay within twice the logarithm |
| `CtzList.Walk` | littlefs/lfs.c:2785-2801 | from the block with one index the loop ends at the block with the target index, within 2*(floor(log2(start))+1) hops |
| `CtzList.Find` | littlefs/lfs.c:2769-2801 | finds the block and the offset that hold a position, reading existing pointers only, within 2*(floor(log2(last index))+1) hops; an empty file has no block |
| `CtzList.Traverse` | littlefs/lfs.c:2903-2944 | reports every block of a file exactly once, last block first, although it reads two pointers at every other step |
| `FileWrite.Disk.Extend` | littlefs/lfs.c:2804-2900 | produces an open list for the given size with the same content, in a block that nobody used, and changes no block in use; it fails only if no block is free, given an allocator that keeps the contract proved in FileWrite.AckThenAlloc |
| `FileWrite.AckThenAlloc` | littlefs/lfs.c:3479-3484 | an acknowledgement directly followed by an allocation hands out a block that is not in use, and reports no space only if every block is in use; a failing traversal stops it exactly if the window is used up, with nothing in flight |
| `FileWrite.Disk.AppendBlock` | littlefs/lfs.c:2862-2891 | block n of a list gets exactly ctz(n)+1 pointers, the k-th to block n-2^k, and the list keeps its content |
| `FileWrite.Disk.Continue` | littlefs/lfs.c:2839-2860 | an incomplete last block is copied, so the list goes on from a fresh copy with the same content |
| `FileWrite.Disk.WritePointers` | littlefs/lfs.c:2862-2891 | the pointers are found by walking the list and written in order; the rest of the block stays erased |
| `FileWrite.File.FlushedWrite` | littlefs/lfs.c:3440-3526 | appends the data to what was written so far, never programming a block in use except the one the file is writing to |
| `FileWrite.File.RawWrite` | littlefs/lfs.c:3528-3570 | afterwards the file reads as the old content overwritten at the position, in append mode not before its end, zero-filled if the position was past the end; the committed list still reads as before and no block of it changed; for sizes below 2^31 the size limit is enforced exactly |
| `FileWrite.File.FillGap` | littlefs/lfs.c:3540-3552 | the bytes between the old end and the position become zero |
| `FileWrite.File.Flush` | littlefs/lfs.c:3227-3305 | after a flush the committed list reads as the logical content, including the tail copied from the old list; the blocks of the old list are unchanged |
| `FileWrite.File.CopyRest` | littlefs/lfs.c:3243-3283 | the bytes of the old file behind the written part are copied one by one to the new list |
| `FileWrite.File.NewPosition` | littlefs/lfs.c:3572-3602 | the position asked for, from the start, from here or from the end, is found although the 32-bit sums may wrap, and refused exactly if it is negative or beyond the size limit |
| `FileWrite.File.Seek` | littlefs/lfs.c:3572-3634 | flushes before moving, keeps the content, leads where the distance points, and refuses exactly the positions before the start or beyond the size limit |
| `FileWrite.File.Shrink` | littlefs/lfs.c:3680-3693 | after truncation the file reads as the prefix of the old content |
| `FileWrite.File.NewBlock` | littlefs/lfs.c:3464-3490 | gets a block that was not in use and keeps the bytes written so far |
| `FileWrite.Reader.Read` | littlefs/lfs.c:3360-3432 | reads exactly the bytes of the committed content from the position on, up to the end of the file |
| `FileWrite.ProgramAppends` | littlefs/lfs.c:3500-3521 | programming erased bytes behind the last byte of an open list appends them to the content of the list |
| `FileWrite.TruncatedContent` | littlefs/lfs.c:3680-3693 | the content of the cut list is the prefix of the content of the whole list |
| `MetadataLog.StepAnswer` | littlefs/lfs.c:677-691 | looking back over one tag changes the id and the class it looks for exactly as replaying the tag changes the directory |
| `MetadataLog.BackAnswers` | littlefs/lfs.c:667-705 | for every log and starting directory, the backward walk with the running id gives the same attribute, or none, for an id and class as the forward replay that inserts, removes and overwrites |
| `MetadataLog.ReplayAppend` | littlefs/lfs.c:651-711 | replaying more tags goes on from the replay of the log before them |
| `MetadataLog.FinerMask` | littlefs/lfs.c:651-705 | a lookup under a finer mask than the class finds the current value of the class whenever that value fits the mask |
| `MetadataLog.WalkStaysInRange` | littlefs/lfs.c:664-691 | at no point of the walk over a block does the id leave its 10 bits, so the tag arithmetic of the running difference never carries into the type |
| `MetadataLog.CommitsInRange` | littlefs/lfs.c:664-691 | walking back over commits for an existing id leads to an id that existed at that point |
| `MetadataLog.CountIsLength` | littlefs/lfs.c:1179-1185 | the count that a scan keeps from names and splices is the number of entries of the replay |
| `MetadataLog.TailAppend` | littlefs/lfs.c:1194-1205 | the tail that a scan keeps goes on from the tail of the log before |
| `MetadataLog.GetSlice` | littlefs/lfs.c:651-711 | the loop returns the attribute that the replay leaves for the id, or none, cut and zero-filled to the requested size; a pending move is treated as a delete at the end of the log |
| `Compaction.SurvivorIsReached` | littlefs/lfs.c:782-809 | a tag that the filter lets through is the one a backward lookup from its new id arrives at |
| `Compaction.ReachedSurvives` | littlefs/lfs.c:782-809 | a value that a backward lookup arrives at is let through, under the id the lookup started from |
| `Compaction.EmittedTrace` | littlefs/lfs.c:842-1034 | looking up an id and class in the rewritten log finds what it finds in the original, a delete counting as absent |
| `Compaction.CompactionPreserves` | littlefs/lfs.c:1905-1912 | the forward replay of what is rewritten for ids begin to end, shifted to zero, holds exactly those entries of the replay of the original log with the appended attributes, and nothing else |
| `Compaction.SplitPreserves` | littlefs/lfs.c:2015-2118 | after a split every entry is in the lower or the upper pair, unchanged |
| `Compaction.CompactedCount` | littlefs/lfs.c:1179-1185 | a scan of the rewritten log counts exactly the copied ids if the last of them has a name |
| `Compaction.Filter` | littlefs/lfs.c:782-809 | the callback loop decides the fate of a tag as defined by the tags behind it |
| `Compaction.Traverse` | littlefs/lfs.c:842-1034 | the outer loop over committed tags and appended attributes emits a log whose replay is the requested range of entries |
| `MetadataPair.NextIsNewer` | littlefs/lfs_util.h:164-167 | sequence comparison calls the next revision newer for all 2^32 revisions, including the wrap to 0 |
| `MetadataPair.TornCommit` | littlefs/lfs.c:1077-1161 | a scan ignores the tags of a commit whose checksum is missing or damaged |
| `MetadataPair.WholeCommit` | littlefs/lfs.c:1077-1161 | a scan accepts a completed commit and knows the rest erased if its forward checksum says so |
| `MetadataPair.AppendScan` | littlefs/lfs.c:1571-1667 | a scan of a block to which part of a commit was appended shows the log before it, or with it if every unit was written |
| `MetadataPair.AppendAtomic` | littlefs/lfs.c:2157-2227 | cut an append anywhere: a mount finds the log before or after, after only if all was written; only erased units are programmed; the pair is intact again |
| `MetadataPair.CompactAtomic` | littlefs/lfs.c:1870-1981 | cut the erase and rewriting of the other block anywhere: a mount finds the old log in the old block or the new one in the other, also when the revision wraps |
| `MetadataPair.OverfullHarmless` | littlefs/lfs.c:1870-1981 | a compaction that runs out of space leaves the directory as it was, cut or not |
| `MetadataPair.HarmlessScan` | littlefs/lfs.c:1077-1161 | units behind the last commit without a checksum among them, or behind a unit that is spoilt already, do not change what a scan finds, however many of them were programmed |
| `MetadataPair.TriedHarmless` | littlefs/lfs.c:2169-2182 | an append that is given up, cut anywhere, leaves the directory as it was; if it programmed anything, the block is no longer erased where memory says so |
| `MetadataPair.ReadsBackExactly` | littlefs/lfs.c:1669-1698 | what an append wrote reads back if and only if the block was erased from the end of its commits on |
| `MetadataPair.ScanLoop` | littlefs/lfs.c:1077-1240 | the scan of one block, as a loop over its units, with the count and the tail that belong to the commits accepted |
| `MetadataPair.FetchMatch` | littlefs/lfs.c:1052-1073 | tries the newer block first and falls back to the other; the result is the newest block with a commit, its count and its tail |
| `PairRuns.EmittedMeans` | littlefs/lfs.c:1905-1912 | if the last entry has a name, what compaction keeps of a log replays to exactly its entries, in number as well, and to no other value |
| `PairRuns.TailReplay` | littlefs/lfs.c:1194-1205 | the tail that a scan keeps is the one that the replay of the log leaves |
| `PairRuns.CommitMeaning` | littlefs/lfs.c:2157-2227 | appending and compacting mean the same, namely the commit: the same entries, as many as a scan counts and as memory expects, the same tail, the same piece of global state |
| `PairRuns.StepAtomic` | littlefs/lfs.c:2120-2241 | one commit, by appending, by compacting or by compacting after an append that did not fit or did not read back, cut anywhere or not: a mount finds it as a whole or not at all; the erased mark in memory is true afterwards if and only if the commit was cut, or had room one way, or programmed no part of an append and found the mark true |
| `PairRuns.ProgramsErasedOnly` | littlefs/lfs.c:2157-2182 | a commit programs only erased units if and only if it tries no append or the block is erased from the end of its commits on |
| `PairRuns.RunAtomic` | littlefs/lfs.c:2120-2241 | over any run of commits with power failures anywhere, and with commits that fail for lack of space halfway through an append, a mount succeeds and finds exactly the commits that took effect, in order: entries, their number as the scan counts it, tail, and piece of global state |
| `PairRuns.AfterGivenUp` | littlefs/lfs.c:2157-2234 | after a commit that programmed part of an append and found room neither way, memory is unchanged but its erased mark is wrong; the next commit that fits programs units that are not erased, and does not stay appended |
| `PairRuns.GivenUp` | littlefs/lfs.c:2157-2234 | such a commit, to a directory as a mount finds it after compaction: a file with three user attributes renamed into an empty directory, in blocks of six units |
| `PairDevice.Device.Issue` | littlefs/lfs.c:227-283 | an operation takes effect, or power fails in it and leaves what the failure model allows |
| `PairDevice.Device.WriteTags` | littlefs/lfs.c:1523-1562 | the first tags of a commit, in order, until power fails |
| `PairDevice.Device.WriteCommit` | littlefs/lfs.c:1523-1667 | all units of a commit, in order, until power fails; the checksum is that of what was written |
| `PairDevice.Device.Rewrite` | littlefs/lfs.c:1870-1981 | erases the other block and writes the next revision, the tags and the checksum, or as many units as fit before space runs out |
| `PairDevice.Device.Commit` | littlefs/lfs.c:2157-2241 | tries to append, checks that it reads back, and else compacts: leaves exactly what cutting the operations of the commit at the point of power loss leaves, and the directory in memory that goes with it |
| `PairDevice.CompactionOf` | littlefs/lfs.c:1905-1955 | the loops gather exactly the tags that the meaning of a compaction is proved for |
| `Tags.FieldsOfMkTag` | littlefs/lfs.c:351-369 | the type, id and size packed into a tag are read back, and the tag is valid |
| `Tags.AddToId` | littlefs/lfs.c:684-688 | adding to a tag shifts its id and touches neither type nor size as long as the id stays in its field |
| `Tags.SubtractFromId` | littlefs/lfs.c:684-688 | subtracting from a tag, as after a delete, shifts its id down and touches neither type nor size |
| `Tags.MaskedCompare` | littlefs/lfs.c:692-703 | comparing masked tags is comparing masked types and ids |
| `Tags.ForwardReads` | littlefs/lfs.c:1098-1113 | decoding the xor chain forwards, as a scan does, yields the tags that were written |
| `Tags.BackwardReads` | littlefs/lfs.c:667-676 | decoding it backwards from the last tag, as a lookup does, yields the same tags and ends at the first key |
| `Tags.PtagsAgree` | littlefs/lfs.c:1597-1640 | writer and scanner derive the same key for the tag behind a checksum |
| `Tags.ErasedEndsLog` | littlefs/lfs.c:1597-1640 | whatever an erased unit looks like, its first word reads as an invalid tag behind the checksum that perturbed the valid bit |
| `Tags.TagContinuesLog` | littlefs/lfs.c:1537-1562 | a tag written there reads back valid and unchanged and differs from the erased byte |
| `CommitCrc.EndBounds` | littlefs/lfs.c:1578-1580 | the aligned end of a commit lies inside the block, at least 8 bytes ahead, and 20 bytes ahead unless it is the end of the block |
| `CommitCrc.FillsUniquely` | littlefs/lfs.c:1587-1656 | there is only one way to cut the bytes up to the end into checksum tags under the rules of the loop |
| `CommitCrc.Close` | littlefs/lfs.c:1571-1667 | from any offset at most block_size-8, without unsigned underflow: the checksum tags follow each other up to the program boundary, each size is 4 to 0x3fe, exactly the last one carries a forward checksum if a program unit follows; running out of space happens only when that forward checksum passes the limit |
| `CommitCrc.CloseWithin` | littlefs/lfs.c:1571-1667 | for any metadata limit a commit can be closed if and only if it reaches the end of the block or 20 bytes are left below the limit where its last closing starts; with a limit at a program boundary, where its first one starts |
| `CommitCrc.LastOfFills` | littlefs/lfs.c:1587-1656 | where the last closing of a commit starts, told from the offset and the end alone |
| `Crc.TableIsShifts` | littlefs/lfs_util.c:15-31 | every entry of the nibble table is four steps of the bitwise division |
| `Crc.CrcDivides` | littlefs/lfs_util.c:15-31 | the nibble-table checksum of any input is the remainder of bitwise division by the reflected polynomial |
| `Crc.CrcAppend` | littlefs/lfs_util.c:15-31 | checksumming in pieces is checksumming the whole |
| `Crc.LfsCrc` | littlefs/lfs_util.c:15-31 | the loop computes that remainder |
| `Crc.ChunkedCrc` | littlefs/lfs.c:154-173 | reading and checksumming in chunks of at most 8 bytes gives the checksum of the whole range |
| `Crc.SelfCheck` | littlefs/lfs.c:1669-1698 | data followed by its own checksum in little-endian order has checksum 0 |
| `Crc.ByteDetected` | littlefs/lfs_util.c:15-31 | changing one byte always changes the checksum, for inputs of any length |
| `Crc.BurstDetected` | littlefs/lfs_util.c:15-31 | so does any damage confined to four consecutive bytes |
| `Crc.BytesOnto` | littlefs/lfs_util.c:15-31 | every four bytes are the stored form of some word, so that covers all damage of that extent |
| `GlobalState.RoundTrip` | littlefs/lfs.c:429-440 | a state survives being stored as twelve octets |
| `GlobalState.TotalReplace` | littlefs/lfs.c:4383-4404 | replacing one pair by others changes the sum of all pieces by exactly their pieces |
| `GlobalState.AppendedStores` | littlefs/lfs.c:2185-2199 | appending the delta xored with the piece already in the log makes the piece change by the delta |
| `StateWord.OrphansCounted` | littlefs/lfs.c:4642-4651 | adding to the tag counts orphans and leaves the rest of it alone if and only if the count stays within nine bits; the uppermost bit then says whether anything is counted or a superblock needed |
| `StateWord.DeorphanClears` | littlefs/lfs.c:4864-4865 | counting down by the reported number of orphans, an unsigned and then a signed byte, leaves nothing counted and no superblock asked for if and only if there were at most 128 |
| `StateWord.MoveReadsBack` | littlefs/lfs.c:4654-4662 | a pending move is read back with its id and pair, the id 0x3ff clears it, and the orphan count, the superblock bit and the uppermost bit stay |
| `GlobalState.MountTells` | littlefs/lfs.c:4401-4402 | after power loss a mount finds the same pending move, and counts one orphan exactly if the uppermost bit was stored, which is right if and only if that bit mirrored the count; while a superblock is needed it may not |
| `GlobalState.Filesystem.PrepOrphans` | littlefs/lfs.c:4642-4651 | counts in memory only; by how much the pieces miss the state on disk does not change |
| `GlobalState.Filesystem.PrepMove` | littlefs/lfs.c:4654-4662 | notes or clears a move in memory only, read back as it was put in; by how much the pieces miss the state on disk does not change |
| `GlobalState.Filesystem.AppendCommit` | littlefs/lfs.c:2185-2222 | after an appended commit the pieces over all pairs add up to the state in memory, so a mount recomputes it, or miss it by exactly what they missed before |
| `GlobalState.Filesystem.Compact` | littlefs/lfs.c:1935-1981 | so after a compaction, links to split-off pairs included; a relocating one conserves the state on disk instead and leaves the change for the next commit |
| `GlobalState.Filesystem.NewTail` | littlefs/lfs.c:1770-1792 | the pair split off takes over the change of state and everything stolen, so the sum including it is conserved |
| `GlobalState.Filesystem.Drop` | littlefs/lfs.c:1749-1766 | if the commit to the predecessor succeeds, a dropped pair hands its piece over, so the sum stays that of the state, whichever way the predecessor commits, and whatever was amiss before |
| `GlobalState.Filesystem.DropFails` | littlefs/lfs.c:2331-2348 | if that commit fails, the pieces miss the state by the piece of the pair, which stays linked; the sum is still right if and only if that piece is zero |
| `GlobalState.FailedDropRevivesMove` | littlefs/lfs.c:1749-1766 | a finished move between two directories, a drop that fails and one more commit: the next mount finds the move pending again |
| `GlobalState.Filesystem.AbandonTails` | littlefs/lfs.c:2068-2117 | if a compaction fails after a split, the pieces miss the state by what the abandoned pairs held; the sum is still right if and only if that is nothing |
| `GlobalState.AbandonedStateIsLost` | littlefs/lfs.c:2068-2117 | an orphan counted, saved in a pair split off, and abandoned: the sum no longer holds |
| `GlobalState.Filesystem.Mount` | littlefs/lfs.c:4383-4404 | the state recomputed from the pieces is the one last committed |
| `Allocator.AroundInjective` | littlefs/lfs.c:574-588 | positions less than one turn apart are different blocks |
| `Allocator.LookaheadPosition` | littlefs/lfs.c:574-588 | the offset of a reported block in the window is the only distance at which the window reaches it |
| `Allocator.WindowIsNew` | littlefs/lfs.c:603-645 | a new window contains no position examined since the acknowledgement |
| `Allocator.FullTurn` | littlefs/lfs.c:603-645 | block_count consecutive positions are all blocks |
| `Allocator.Free.TreeChanges` | littlefs/lfs.c:590-600 | whatever becomes of the tree, as long as it gains only blocks that were handed out, the allocator stays sound |
| `Allocator.Free.Ack` | littlefs/lfs.c:590-592 | resets the budget to block_count and forgets what was in flight |
| `Allocator.Free.Drop` | littlefs/lfs.c:596-600 | empties the window and counts as an acknowledgement |
| `Allocator.Free.Lookahead` | littlefs/lfs.c:574-588 | marks the reported block if and only if the window contains it |
| `Allocator.Free.Refill` | littlefs/lfs.c:629-645 | the next window starts where the last one ended, is no larger than the budget, and is marked exactly where the traversal reported a block |
| `Allocator.Free.Alloc` | littlefs/lfs.c:603-647 | a block handed out is neither reachable nor handed out since the acknowledgement, and is the front of the window or the first one behind it that the traversal does not report; the budget never underflows; no space is reported if and only if the window is used up and the traversal reports every block not looked at since the acknowledgement |
| `Allocator.Free.NoSpaceMeans` | littlefs/lfs.c:603-647 | that report is right directly after an acknowledgement, and later if and only if every block looked at since is still in use or in flight |
| `Allocator.SecondAllocationFails` | littlefs/lfs.c:2530-2532 | on a device of five blocks, the second of two allocations after one acknowledgement reports no space although a block is free |
| `Allocator.HandedOutAgain` | littlefs/lfs.c:596-647 | on a device of 65 blocks, a block in flight when a traversal fails is handed out again |
| `DeviceCache.StallsExactly` | littlefs/lfs.c:52-122 | a round makes no progress if and only if the position is aligned and in neither cache, and either at least the hint and a read unit is left and pending program data begins inside the unit, or less is left and the hint is 0 |
| `DeviceCache.EndsExactly` | littlefs/lfs.c:44-125 | a call with a hint comes to an end if and only if not: pending program data begins inside a read unit, the range begins no later than that unit and reaches a read unit and the hint beyond its start, and the read cache does not hold the unit on arrival |
| `DeviceCache.RoundDecidesNothing` | littlefs/lfs.c:52-122 | no round changes that condition |
| `DeviceCache.UnalignedPcacheStalls` | littlefs/lfs.c:44-125 | a 64-byte read for which the loop never ends, and a 32-byte read with the same caches and hint for which it does |
| `DeviceCache.RoundReads` | littlefs/lfs.c:52-122 | what a round takes from either cache lies in it, and bytes from the read cache or the device have no pending program data over them |
| `DeviceCache.LoadFits` | littlefs/lfs.c:98-112 | a load covers the position, is made of whole read units, and fits the cache and the block |
| `DeviceCache.LoadCache` | littlefs/lfs.c:98-118 | a successful load is coherent with the device; a failed one leaves the cache coherent if and only if its old bytes happen to be those of the window it now claims |
| `DeviceCache.Retry` | littlefs/lfs.c:44-125 | a read repeated after a failed load succeeds without asking the device, and returns what the cache held before |
| `DeviceCache.ReadRound` | littlefs/lfs.c:52-122 | one round delivers overlaid bytes or loads the cache so that the next round can; whatever the cache claims is served from it |
| `DeviceCache.BdRead` | littlefs/lfs.c:44-125 | every call with a hint that comes to an end returns exactly the device bytes overlaid by the pending program data, leaves the read cache coherent, and rejects exactly ranges outside the device |
| `TailList.SyncIsSameKey` | littlefs/lfs.c:303-308 | two pairs are in sync if and only if they are the same blocks in either order |
| `TailList.Repeats` | littlefs/lfs.c:4258-4281 | once the list returns to a pair it repeats itself |
| `TailList.StuckIsSimple` | littlefs/lfs.c:4443-4471 | a list that ends, or breaks, has passed no pair twice |
| `TailList.StuckIsAcyclic` | littlefs/lfs.c:4443-4471 | a list that ends, or breaks, is not cyclic |
| `TailList.TortoiseIsMet` | littlefs/lfs.c:4258-4281 | a tortoise that waits beyond as many pairs as there are is met within another such number of steps |
| `TailList.Walk` | littlefs/lfs.c:4258-4281 | on any finite tail graph the loop ends within three fetches for each pair, reports a cycle if and only if the list from {0,1} has one, and otherwise visits every pair once, in order |
| `Slip.NoEndInside` | slip/slip.c:96-118 | no END byte occurs inside a frame, whatever the packet |
| `Slip.Receiver.Reinit` | slip/slip.h:70-79 | a fresh receiver |
| `Slip.Receiver.Store` | slip/slip.c:17-29 | the byte is appended, or the limit reported and the frame given up; the length never exceeds the buffer |
| `Slip.Receiver.Receive` | slip/slip.c:31-81 | follows the decoder automaton for every byte in every state |
| `Slip.RunConcat` | slip/slip.c:31-81 | decoding a line in pieces is decoding the whole |
| `Slip.NeverOverruns` | slip/slip.c:17-81 | on arbitrary input no more than the buffer is collected, and packets reported are neither empty nor longer than the buffer |
| `Slip.PacketRoundTrip` | slip/slip.c:31-124 | one encoded packet that fits decodes to itself; an empty one to nothing |
| `Slip.OverlongIsReported` | slip/slip.c:17-29 | a packet longer than the buffer is always reported while it is received |
| `Slip.StreamRoundTrip` | slip/slip.c:17-124 | for any list of packets, decoding the concatenated frames gives exactly the non-empty packets in order if and only if every packet fits the buffer |
| `Slip.TransmitByte` | slip/slip.c:96-118 | the calls made for one byte and the result of the last of them |
| `Slip.Transmit` | slip/slip.c:83-124 | over a transport that may fail at any call: exactly these calls, and the result left by the last byte of the packet |
| `Slip.FrameArrives` | slip/slip.c:83-124 | the frame arrives whole if and only if every call succeeded, and then the result is 0 |
| `Slip.ResultIsAboutTheLastByte` | slip/slip.h:121-129 | the result is an error if and only if the last byte of the packet did not get out, so it tells the truth exactly if nothing or that byte failed; for an empty packet it is 0 whatever becomes of its END bytes |
| `Slip.ErrorForgotten` | slip/slip.h:121-129 | a packet of which a byte is lost although the result is 0 |
| `ConfigFormat.UpdateChecksum` | mmconfig/mmconfig.c:290-301 | the loop folds the bytes into the checksum |
| `ConfigFormat.FoldConcat` | mmconfig/mmconfig.c:290-301 | checksumming in pieces is checksumming the whole |
| `ConfigFormat.ByteChangeDetected` | mmconfig/mmconfig.c:290-301 | a change of one byte always changes the checksum |
| `ConfigFormat.ValidatePartition` | mmconfig/mmconfig.c:412-466 | one pass that grows the checksum record by record accepts exactly the images with the signature, a complete list of records and the checksum of their bytes |
| `ConfigFormat.ParseSerial` | mmconfig/mmconfig.c:419-458 | a list of records parses back to itself, and to none if a data length has the high byte of blank flash |
| `ConfigFormat.ParsedIsSerial` | mmconfig/mmconfig.c:651-698 | a parsed record lies in flash exactly as it would be written |
| `ConfigFormat.ImageRoundTrip` | mmconfig/mmconfig.c:412-466 | the complete image is accepted if and only if all data is at most 65279 bytes, and then holds exactly the records and the version; the walk never leaves the partition |
| `ConfigFormat.TornHeader` | mmconfig/mmconfig.c:412-422 | a header that was not completely written is rejected, without any assumption on the checksum |
| `ConfigFormat.TornStaysInside` | mmconfig/mmconfig.c:425-458 | the walk over a torn image stays inside the partition |
| `ConfigFormat.TornRejected` | mmconfig/mmconfig.c:412-466 | power loss while writing leaves an image that is rejected, or the complete one |
| `ConfigUpdate.ValidateKey` | mmconfig/mmconfig.c:362-403 | accepts exactly the keys that begin with a letter, go on with letters, digits, underscores or dots, are at most 32 bytes long, and tells those that end in an asterisk |
| `ConfigUpdate.KeyMatch` | mmconfig/mmconfig.c:312-360 | never reads past the requested key, and answers whether it covers the stored one |
| `ConfigUpdate.PlainMatches` | mmconfig/mmconfig.c:303-360 | without an asterisk: same length and equal but for case |
| `ConfigUpdate.WildcardMatches` | mmconfig/mmconfig.c:303-360 | with an asterisk at the end: the part before it is a prefix, but for case |
| `ConfigUpdate.ReadAfterUpdate` | mmconfig/mmconfig.c:1034-1092 | after an update a key that some node covers reads as what the update stored under it, if anything; every other key reads as before |
| `ConfigUpdate.CountedSpace` | mmconfig/mmconfig.c:741-774 | what new records take in flash is what the check counts for them, its lengths cut to 8 and 16 bits, plus 65536 bytes for every time the length of some data exceeds that |
| `ConfigUpdate.RoomForStream` | mmconfig/mmconfig.c:776-797 | what an update writes fits the partition if and only if the sum of the space check, plus the bytes it does not count, is below the size; nothing goes uncounted if and only if all data is below 65536 bytes |
| `ConfigUpdate.ExactFillOverruns` | mmconfig/mmconfig.c:776-797 | for every partition of 16 to 65551 bytes, an update that passes the space check and is one byte longer than the partition |
| `ConfigUpdate.LongDataOverruns` | mmconfig/mmconfig.c:758-767 | 65536 bytes of data, or any multiple, are counted as none, so the check of every partition of at least 16 bytes lets them pass |
| `ConfigUpdate.LongDataSpillsOver` | mmconfig/mmconfig.c:758-773 | data that is longer than its length field tells and fits the partition: if what lies behind the cut spells records, the image is valid and holds these as well |
| `ConfigUpdate.EmptyDataIsStored` | mmconfig/mmconfig.h:248-252 | data of size zero is stored and found; only a node without data deletes |
| `ConfigUpdate.UpdatedFits` | mmconfig/mmconfig.c:741-774 | records built from valid keys and data that fits the length field can be stored |
| `ConfigCrash.ErasesDone` | mmconfig/mmconfig.c:477-495 | erasing block by block clears the partition |
| `ConfigCrash.ChunksDone` | mmconfig/mmconfig.c:515-532 | the full staging buffers written so far are a prefix of the stream |
| `ConfigCrash.UpdateOpsDone` | mmconfig/mmconfig.c:810-877 | all flash operations of an update leave the stream followed by erased flash |
| `ConfigCrash.OpsFit` | mmconfig/mmconfig.c:824-877 | the flash operations of an update stay inside the partition if and only if the stream fits it |
| `ConfigCrash.CutUpdate` | mmconfig/mmconfig.c:824-877 | power loss in any operation leaves the old image, one without its header, or a prefix of the new one |
| `ConfigCrash.CutUpdateAccepted` | mmconfig/mmconfig.c:810-889 | what validation makes of it: old, rejected, or new and complete |
| `ConfigRuns.FirstStart` | mmconfig/mmconfig.c:967-972 | flash that holds nothing valid is initialised to an empty store |
| `ConfigRuns.RestartKeeps` | mmconfig/mmconfig.c:936-973 | a restart finds the records of the primary partition |
| `ConfigRuns.UpdateSafe` | mmconfig/mmconfig.c:810-889 | a completed update holds exactly the old records that no node covers and the new ones if all data is at most 65279 bytes, and the old records otherwise, the partitions swapped exactly in the first case; the primary stays valid, and is the newest if and only if no swap wrapped the version; nothing is assumed of the checksum |
| `ConfigRuns.CutSafe` | mmconfig/mmconfig.c:810-974 | an update cut by power loss leaves all old or all new records after the restart, the new ones once every flash operation was done, unless the version wrapped |
| `ConfigRuns.RunSafe` | mmconfig/mmconfig.c:810-974 | over any run of updates, cuts anywhere and restarts, the primary stays valid with the highest version, and every update took effect as a whole or not at all |
| `ConfigRuns.LongDataIsDropped` | mmconfig/mmconfig.c:880-889 | 65280 to 65535 bytes of data that fit the store are accepted, and nothing is stored |
| `ConfigRuns.RolloverLosesUpdate` | mmconfig/mmconfig.c:948-957 | of two valid partitions with consecutive versions a restart takes the last written one if and only if the version did not wrap |
| `ConfigRuns.EraseAllNotAtomic` | mmconfig/mmconfig.c:976-1009 | power loss between the two erases brings back the records of the secondary partition if it was valid |
| `ConfigStore.Store.EraseSecondary` | mmconfig/mmconfig.c:477-495 | the partition is blank, erased block by block |
| `ConfigStore.Store.BufferedWrite` | mmconfig/mmconfig.c:515-544 | whatever the sizes of the pieces pushed, flash gets the 128-byte chunks of their concatenation and the rest waits in the buffer; only erased flash is programmed |
| `ConfigStore.Store.StartFlashing` | mmconfig/mmconfig.c:568-584 | the stream begins with the header |
| `ConfigStore.Store.EndFlashing` | mmconfig/mmconfig.c:589-595 | flash holds the whole stream |
| `ConfigStore.Store.ProcessExisting` | mmconfig/mmconfig.c:636-703 | checksums or pushes exactly the bytes of the records that no node covers, and adds up the size of the others |
| `ConfigStore.Store.ComputeNewChecksum` | mmconfig/mmconfig.c:716-797 | predicts the checksum of the records the update will hold, for data of any length, and tells invalid keys and what the check takes for lack of space |
| `ConfigStore.Store.WriteSecondary` | mmconfig/mmconfig.c:824-877 | the secondary partition becomes the new image, by exactly these flash operations in this order |
| `ConfigStore.Store.UpdateSecondaryImage` | mmconfig/mmconfig.c:810-889 | refused updates change nothing; an accepted one that fits issues the operations of the update and swaps the partitions if the result validates |
| `ConfigStore.Store.Init` | mmconfig/mmconfig.c:903-974 | chooses the valid partition with the higher version, or erases everything exactly if neither is valid |
| `ConfigStore.Store.EraseAll` | mmconfig/mmconfig.c:976-1015 | both partitions hold the empty list under version 0 |
| `ConfigStore.Store.ReadData` | mmconfig/mmconfig.c:1034-1092 | finds the first record with the name of the key, and rejects keys that are not plain |

## Left out

- Allocator.Free.Alloc: assumes at most 2^31 blocks, so that the 32-bit sums of positions do not wrap; the lookahead bitmap is an array of booleans, not of 32-bit words.
- Allocator.Free.Drop: what is in flight when a traversal fails is forgotten, as in the code; that such blocks are not handed out again is not promised by it.
- Compaction.SplitPreserves: how the split point is found, and what happens if no block can be allocated for the new pair, is not modelled.
- Compaction.Traverse: the pseudo tags FROM_MOVE and FROM_USERATTRS, which expand to tags of another directory, are not modelled.
- ConfigFormat.ValidatePartition: what the code answers after walking past the partition depends on what lies there; the model has one verdict for it.
- ConfigRuns.CutSafe: as ConfigRuns.UpdateSafe, and assumes what `ConfigFormat.ChecksumTells` says.
- ConfigRuns.RunSafe: as ConfigRuns.UpdateSafe for completed updates, which must also leave a version to count to, and as ConfigRuns.CutSafe for those cut off.
- ConfigRuns.UpdateSafe: for updates that the store accepts, assumes data of at most 65535 bytes, since what is found otherwise depends on the bytes of the data (`ConfigUpdate.LongDataSpillsOver`), and an update that does not fill the partition to the last byte, since the terminator would then be written behind it; what writing past the partition does to the flash there is not modelled.
- ConfigStore.Store.ReadData: without the table of literal defaults that is consulted when a key is not found.
- ConfigStore.Store.ComputeNewChecksum: the sums of sizes are not cut to 32 bits.
- ConfigStore.Store.UpdateSecondaryImage: for updates that the check lets through, only those that fit the partition (`ConfigUpdate.RoomForStream`).
- DeviceCache.BdRead: a hint of at least 1, as all callers pass; the 32-bit sums of the position and the size, and of the position and the hint, do not wrap. With hint 0 `DeviceCache.StallsExactly` covers single rounds.
- DeviceCache.ReadRound: a hint of at least 1; with hint 0 `DeviceCache.StallsExactly` covers single rounds.
- FileWrite.AckThenAlloc: used by file writes in the form in which the traversal does not fail; a failing one ends the write.
- FileWrite.Disk.Extend: bad blocks, which are given up for another one, are not modelled; the allocator stands in a set of used blocks, and FileWrite.AckThenAlloc shows that the real one keeps its contract.
- FileWrite.File.Flush: does not relocate after a bad block, and the file is never inline; program caching is modelled in DeviceCache, not here.
- FileWrite.File.FlushedWrite: does not relocate after a bad block, and the file is never inline.
- FileWrite.File.RawWrite: for at most 2^31-1 bytes and a file limit below 2^31 (LFS_FILE_MAX), so that the 32-bit sum in the limit check does not wrap; after running out of space only the committed list is described, since such a file is not synchronised.
- FileWrite.File.Seek: without the shortcut that keeps the read cache.
- MetadataLog.GetSlice: from offset 0 of the data; for masks finer than the class of an attribute the result is tied to the backward walk, and `MetadataLog.FinerMask` says when it is also the replayed value.
- MetadataPair.FetchMatch: matching tags while scanning, a pending move, and read errors are not modelled.
- MetadataPair.ScanLoop: the best match kept for a search is not modelled.
- PairRuns.RunAtomic: works on units, not on bytes, with the ideal checksum stated above; a commit that splits the directory or drops it, and blocks that went bad, are not among the runs; every commit leaves a name on the last entry, as the creation of an entry does.
- TailList.Walk: the number of pairs is below 2^31-1, so that the period, a 32-bit number, does not wrap.
- Open directories and files that are fixed up after a commit, and the search for orphans.
- Relocation of a pair beyond its effect on the global state: relinking parent and predecessor, block wear.
- Path lookup, mkdir, remove, rename, attributes, inline files, superblock expansion, migration from version 1.
- Endianness conversion other than the stored order of bytes, tracing, locking, memory allocation.
- Program cache writes (`lfs_bd_prog`, `lfs_bd_flush`, `lfs_bd_sync`): only reads through the caches are modelled.
- mmconfig conversions of integers, booleans and strings; the check that skips writing an unchanged value; usage reporting.
- SLIP resynchronisation after an error: the decoder stores escaped bytes outside a frame, so nothing is promised there.
- Network stacks, drivers and tables elsewhere in the repository: they hold no comparable protocol.
