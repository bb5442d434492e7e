# Verified models of SylixOS storage and semaphore code

Dafny models of three parts of SylixOS, each proved to do what it is there for.

**FatFs** (`Fat*.dfy`): a drive as a sequence of sectors and, above it, the one-sector write-back window, FAT12/16/32
entries (`FatImage`, `FatVolume`), cluster chains and their allocation (`FatChain`, `FatAlloc`), open files with their
private sector buffer (`FatFileView`, `FatFile`), runs of calls (`FatRuns`), directory tables (`FatDir`) and long
names (`FatLfn`). Each layer refines the one above it: a file is a sequence of bytes, a table an array of entries. The
format is that of Microsoft's FAT32 File System Specification 1.03 (FATGEN), sections "FAT Data Structure", "FAT
Directory Structure" and "FAT Long Directory Entries"; the limits between the sub-types are those of the code.

**YAFFS2** (`Yaffs*.dfy`): blocks with their states, chunk bits and redundant counters (`YaffsBlocks`, `YaffsBitmap`);
objects, their pointers to chunks and the garbage collector (`YaffsGc`); the bit-packed tree of tnodes behind each
file (`YaffsLeaf`, `YaffsTree`, `YaffsTnodes`, `YaffsChunkMap`, `YaffsPrune`); the short-operation cache
(`YaffsCache`); the checkpoint stream (`YaffsCheckpt`); the error-correcting code (`YaffsEcc`); and the name and value
store (`YaffsNameVal`).

**XSI semaphores** (`XsiSem.dfy`): semop() as in the System Interfaces volume of POSIX.1-2008 (XSI option), with
blocking, undo and process exit, as steps under one lock.

`Arith.dfy` and `Bytes.dfy` hold facts about division and about words stored as bytes. `dafny verify dfyconfig.toml`
checks everything.

Code that works in place is a class or a method with loops; what it computes is stated against values (`Fat()`,
`Bytes`, `MapOf`, `View`, `Values`), and the main results are about those. Drive and flash transfers may fail at any
time: failures are arbitrary choices in the methods, and each contract says what holds then.

## Where the code does not do what it sets out to

The members named state exactly when each happens, and most give an input at which it does.

- Mounting accepts more clusters than 28-bit numbers can name (`FatImage.MountedIsValid`, `FatImage.TooManyClusters`).
- Removing a chain reports erasure ranges that are right exactly if the last entry read is not the number behind the
  last freed cluster (`FatAlloc.RemoveChain`, `FatAlloc.RunNotReported`).
- The free-cluster scan is cached even when it broke off, so that the next call takes a partial count for the number
  of free clusters; and for FAT16 and FAT32 it also looks at the two reserved entries (`FatAlloc.GetFree`,
  `FatAlloc.GetFreeTwice`, `FatAlloc.ReservedEntryCounted`).
- A failed write of a whole chunk past the YAFFS cache drops newer data the cache held
  (`YaffsCache.FailedWholeKeptIff`, `YaffsCache.FailedWholeLoses`). A write that fails for lack of a tnode is taken
  for a success (`YaffsCache.AcceptedRightIff`, `YaffsCache.AcceptedButLost`). Flushes ignore failures altogether
  (`YaffsCache.FlushKeptIff`, `YaffsCache.FailedFlushLoses`).
- The byte count recorded with a chunk is cut to 32 bits (`YaffsCache.WritebackRightIff`,
  `YaffsCache.WritebackTooSmall`). The chunk number of a position is right up to 31 bits of the shifted position for
  chunk sizes that are a power of two and up to 32 bits for others, where the division is unsigned
  (`YaffsCache.ChunkRightIff`, `YaffsCache.PowerOfTwoTooFar`, `YaffsCache.OtherSizeTooFar`).
- A chunk the collector could not copy is passed over. The block is then not reclaimed by this collection nor by any
  later one, and no other block is collected, as long as the chunk stays in use (`YaffsGc.Dev.GcBlock`,
  `YaffsGc.Dev.CheckGc`).
- Soft-deleted files that a collection has emptied are removed when it ends. If its block is erased outside a
  collection, because its last chunk is deleted, the next collection starts with an empty list and these files stay
  (`YaffsGc.Dev.StartNext`).
- Closing a checkpoint stream compares the write position with the size of a size and so always writes a last page.
  Whether that or the last flush succeeded is not looked at: a checkpoint is reported as written though its end is
  missing exactly if it fits into the pages and once more into the buffer, but not into the pages; a single byte
  written after that goes behind the buffer (`YaffsCheckpt.Writer.Wr`, `YaffsCheckpt.WriteCheckpoint`,
  `YaffsCheckpt.LastPageLost`, `YaffsCheckpt.ByteBehindBuffer`). The reader gives up after one block in sixteen and
  one or two more (`YaffsCheckpt.ReadsAllIff`, `YaffsCheckpt.TooManyBlocks`).
- A name and value buffer filled to its last byte loses its last record (`YaffsNameVal.LastFoundIff`,
  `YaffsNameVal.FullBufferReadsEmpty`). It comes back when another record is deleted (`YaffsNameVal.NameVal.Del`);
  when another is replaced it comes back as well, and takes room that has already been counted as free for the new
  record, which then goes beyond the buffer if it is longer than the one it replaces (`YaffsNameVal.NameVal.Set`).
  Copying a name clears four bytes more than the record has, which leaves the buffer exactly if fewer than four bytes
  are free behind the record (`YaffsNameVal.NameVal.Set`). Deleting a record copies overlapping bytes with memcpy,
  which C leaves undefined; the model takes it as a copy from low to high addresses.
- Long names of 254 and 255 characters can be stored but are not read back, though names of 254 can be found
  (`FatLfn.StoreReadFind`, `FatLfn.LongName`).
- Process exit means to cut a semaphore off at 0 but makes it the maximum instead (`XsiSem.ExitValueMeaning`,
  `XsiSem.ExitBelowZero`). The range check of an adjustment looks at each operation alone, so that a batch can wrap a
  short (`XsiSem.EventConserves`, `XsiSem.AdjustmentOverflows`).

## Model

| member | source | states |
|---|---|---|
| FatImage.MountedIsValid | SylixOS/fs/fatFs/ff.c:2292-2344 | What the mount code checks, with its 32-bit sizes, implies the geometry condition everything else rests on, every entry in the FAT and every cluster in the volume, if and only if cluster numbers have at most 28 bits, which it does not check |
| FatImage.TooManyClusters | SylixOS/fs/fatFs/ff.c:2292-2344 | A drive with 2^28 - 2 clusters of one sector is mounted |
| FatImage.Put12 | SylixOS/fs/fatFs/ff.c:955-967 | Storing a 12-bit value, or only its first byte, changes no other entry, although neighbours share a byte and an entry may straddle a sector |
| FatImage.Put16 | SylixOS/fs/fatFs/ff.c:969-975 | Storing a 16-bit entry changes that entry and no other |
| FatImage.Put32 | SylixOS/fs/fatFs/ff.c:977-984 | Storing a 28-bit entry keeps the top four bits and every other entry |
| FatVolume.FatFs.SyncWindow | SylixOS/fs/fatFs/ff.c:767-791 | A dirty window is written back and a FAT sector reflected in the other copies; the volume's content is unchanged, and after success with working drives the second FAT equals the first |
| FatVolume.FatFs.ReflectWindow | SylixOS/fs/fatFs/ff.c:779-784 | The sector just written becomes the same sector of the other FAT; a failure is not reported |
| FatVolume.FatFs.MoveWindow | SylixOS/fs/fatFs/ff.c:796-816 | The wanted sector is in the window; what the volume holds does not change, even when a transfer fails |
| FatVolume.FatFs.GetFat | SylixOS/fs/fatFs/ff.c:885-930 | Entry c of the table, 1 for a number out of range, the error value only after a failed transfer; the table is untouched |
| FatVolume.FatFs.PutFat | SylixOS/fs/fatFs/ff.c:940-993 | The entry becomes the value cut to 12, 16 or 28 bits; every other entry and every sector outside the FATs is kept, also when a transfer fails half-way |
| FatVolume.FatFs.TopNibble | SylixOS/fs/fatFs/ff.c:977-984 | The four bits FAT32 keeps out of an entry are the same before and after |
| FatVolume.FatFs.ClearCluster | SylixOS/fs/fatFs/ff.c:1229-1237 | The sectors of a cluster are zeros and nothing else has changed; the window is on its first sector. A failed transfer leaves the rest of the volume alone as well |
| FatChain.ChainUnique | SylixOS/fs/fatFs/ff.c:1020-1042 | On any table a cluster determines the rest of its chain |
| FatChain.ChainInjective | SylixOS/fs/fatFs/ff.c:1020-1042 | A chain that reaches an end mark visits no cluster twice |
| FatChain.DifferentEnds | SylixOS/fs/fatFs/ff.c:1057-1107 | Chains with different ends share no cluster |
| FatChain.Extended | SylixOS/fs/fatFs/ff.c:1092-1095 | Linking a free cluster behind a chain lengthens that chain by it and keeps every chain with another end |
| FatChain.Started | SylixOS/fs/fatFs/ff.c:1092-1095 | Starting a chain of one cluster keeps every other chain |
| FatChain.Removed | SylixOS/fs/fatFs/ff.c:1004-1050 | Removing a chain keeps every chain that ends elsewhere and frees exactly its own clusters |
| FatAlloc.FindFree | SylixOS/fs/fatFs/ff.c:1078-1090 | The circular search finds a free cluster unless there is none at all |
| FatAlloc.CreateChain | SylixOS/fs/fatFs/ff.c:1057-1107 | Exactly one formerly free cluster is appended (or starts a chain), or the following cluster is returned; 0 exactly when none is free; a free count that was right stays right |
| FatAlloc.RemoveChain | SylixOS/fs/fatFs/ff.c:1004-1050 | Ends on every table, cyclic ones included; the freed clusters are those the walk meets; the ranges reported for erasure are exactly the freed clusters if and only if the last entry read is not the number behind the last cluster; a free count that was right stays right |
| FatAlloc.ChainRemoved | SylixOS/fs/fatFs/ff.c:1020-1042 | For a sound chain the walk is the whole chain, and the free set grows by exactly it; the run RemoveChain leaves unreported is there only for a chain that ends in the last entry of the table with the number of entries as its mark |
| FatAlloc.CoversAll | SylixOS/fs/fatFs/ff.c:1031-1041 | The erasure ranges make up the freed clusters if and only if no run is left unreported |
| FatAlloc.RunNotReported | SylixOS/fs/fatFs/ff.c:1020-1042 | In a table of three entries the chain [2] with end mark 3 is freed and nothing is reported |
| FatAlloc.GetFree | SylixOS/fs/fatFs/ff.c:3661-3719 | The cached count if it is plausible, else the count of the scan, which is cached even if the scan broke off, on working drives at the first entry of 1 of a FAT12 table: the cached count is the number of free clusters if and only if the zero entries not looked at make up for the reserved ones that were |
| FatAlloc.ReservedEntryCounted | SylixOS/fs/fatFs/ff.c:3694-3712 | A table whose entry 0 is zero, without a free cluster, counts one |
| FatAlloc.GetFreeTwice | SylixOS/fs/fatFs/ff.c:3684-3717 | On a FAT12 table with a 1 in its first entry the first call fails and the second succeeds with no free cluster |
| FatAlloc.CountBySector | SylixOS/fs/fatFs/ff.c:3694-3712 | The scan sector by sector counts zero entries of the table |
| FatFile.Fil.FRead | SylixOS/fs/fatFs/ff.c:2780-2871 | What is handed out is the file's content from the position on, whether it was in the private buffer, on the drive or went past a dirty buffered sector; nothing else changes |
| FatFile.Fil.FWrite | SylixOS/fs/fatFs/ff.c:2881-2994 | A prefix of the data overwrites the content at the position: all of it, or as much as ends where the file would end with every free cluster of the volume, or nothing if it would pass 4 GB; the rest of the file is kept. It fails only if it is not open for writing, or on a faulty drive |
| FatFile.Fil.FLseek | SylixOS/fs/fatFs/ff.c:3311-3387 | From any position, by the shortcut or from the first cluster, it ends at the target, in read mode at the end of the file if that is before it, in write mode where the file would end with every free cluster; in write mode the old chain is a prefix of the new one and the content stays |
| FatFile.Fil.SeekStart | SylixOS/fs/fatFs/ff.c:3321-3341 | Following starts at the current cluster if the target is not before it, else at the first, which is made if the file has none |
| FatFile.Fil.SeekFollow | SylixOS/fs/fatFs/ff.c:3342-3359 | The loop stops in the cluster of the target, or at the end of the last cluster when the volume is full |
| FatFile.Fil.DirectIn | SylixOS/fs/fatFs/ff.c:2826-2843 | Whole sectors come straight from the drive with the newer buffered sector laid over them |
| FatFile.Fil.DirectOut | SylixOS/fs/fatFs/ff.c:2941-2962 | Whole sectors go straight to the drive and the buffer is refilled if it holds one of them |
| FatFileView.DirectRead | SylixOS/fs/fatFs/ff.c:2826-2843 | The bytes handed out by a direct read are the bytes of the file |
| FatFileView.DirectWrite | SylixOS/fs/fatFs/ff.c:2941-2962 | A direct write overwrites those bytes of the file and no other |
| FatFileView.Flushed | SylixOS/fs/fatFs/ff.c:2846-2851 | Writing the dirty buffer back changes no byte of the file |
| FatFileView.ByteOfCluster | SylixOS/fs/fatFs/ff.c:2806-2825 | Where byte n of a file is: cluster of the chain, sector in the cluster, offset in the sector |
| FatRuns.Run | SylixOS/fs/fatFs/ff.c:2780-3387 | Any sequence of reads, writes and seeks on a file: on working drives every call up to the first the file is not open for is done; the content is what the changes make of it in turn, each read hands out what the changes before it have made, each write is whole but for what lies beyond the room on the volume, which no call changes, each seek ends at its target or where file or volume ends, and nothing else on the volume changes |
| FatRuns.LastWriteWins | SylixOS/fs/fatFs/ff.c:2881-2994 | Over any history of changes, such as those of FatRuns.Run, a byte is what the last change covering it wrote |
| FatRuns.NeverWritten | SylixOS/fs/fatFs/ff.c:2881-2994 | A byte that no change of a history covered is what it was at the start |
| FatRuns.OtherFilesKept | SylixOS/fs/fatFs/ff.c:2780-2994 | Reads, writes and seeks on one file keep the chain and all sectors of every other |
| FatDir.Dir.Sdi | SylixOS/fs/fatFs/ff.c:1147-1185 | Points to entry idx of the table if it has one, static or following the chain; otherwise an internal error, or a disk error only on a faulty drive |
| FatDir.Dir.Next | SylixOS/fs/fatFs/ff.c:1195-1253 | Points to the next entry, across sectors and clusters, or says end of table exactly at the end of the table or of the 16-bit index. Asked to stretch at the end of a table in clusters, it hooks a free cluster behind it and fills it with zeros, and no other sector behind the FATs changes; it is denied only if no cluster is free |
| FatDir.Dir.Walk | SylixOS/fs/fatFs/ff.c:1147-1253 | Stepping k times from the start ends where going to k at once does, and fails only if there is no entry k or the drive does |
| FatDir.SamePlace | SylixOS/fs/fatFs/ff.c:1179-1182 | Cluster, sector and slot of an entry do not depend on how it was reached |
| FatDir.PlacesApart | SylixOS/fs/fatFs/ff.c:1179-1182 | Different entries of a table are in different places |
| FatDir.OneClusterLess | SylixOS/fs/fatFs/ff.c:1169-1176 | Taking the entries of a cluster off the index keeps sector and slot |
| FatDir.NextEntry | SylixOS/fs/fatFs/ff.c:1208-1250 | The next index is the next slot, the first slot of the next sector, or the first sector of the next cluster |
| FatLfn.FitLfn | SylixOS/fs/fatFs/ff.c:1403-1428 | The entry holds thirteen characters of the name, terminator and filler, its number, and the mark of the last part exactly when the name ends in it |
| FatLfn.PickLfn | SylixOS/fs/fatFs/ff.c:1370-1398 | The part goes to its place in the buffer and nothing before it changes; refused if and only if it is the last part of a name of more than 253 characters |
| FatLfn.ReadName | SylixOS/fs/fatFs/ff.c:1370-1398 | The entries of any name of 1 to 255 characters give it back if and only if it has at most 253 |
| FatLfn.StoreName | SylixOS/fs/fatFs/ff.c:1403-1428 | The entries together spell the name |
| FatLfn.CmpLfn | SylixOS/fs/fatFs/ff.c:1339-1365 | One entry is accepted if and only if its characters, and a missing terminator, match in upper case |
| FatLfn.CompareName | SylixOS/fs/fatFs/ff.c:1339-1365 | All entries are accepted if and only if the names are equal up to case and the stored one has at most 254 characters |
| FatLfn.AllMatch | SylixOS/fs/fatFs/ff.c:1348-1362 | If every part matches, length and characters agree |
| FatLfn.StoreReadFind | SylixOS/fs/fatFs/ff.c:1339-1428 | A stored name is read back if and only if it has at most 253 characters and found if and only if it has at most 254 |
| FatLfn.LongName | SylixOS/fs/fatFs/ff.c:1339-1428 | A name of 254 letters is found but not read back |
| YaffsBlocks.Flash.constructor | SylixOS/fs/yaffs2/yaffs_guts.c:2318-2363 | A blank flash satisfies every invariant of the counters |
| YaffsBlocks.Flash.FindAllocBlock | SylixOS/fs/yaffs2/yaffs_guts.c:358-402 | Fails if and only if the erased-block counter says there is none; otherwise an empty block becomes the only allocating one |
| YaffsBlocks.Flash.AllocChunk | SylixOS/fs/yaffs2/yaffs_guts.c:404-454 | The next chunk in order is taken and counted, or nothing changes; it fails only if no block is erased or only the reserve is left |
| YaffsBlocks.Flash.SkipRestOfBlock | SylixOS/fs/yaffs2/yaffs_guts.c:473-484 | The allocating block becomes full, counters and chunks unchanged |
| YaffsBlocks.Flash.ProgramChunk | SylixOS/fs/yaffs2/yaffs_guts.c:486-584 | Only a page that is erased is ever programmed |
| YaffsBlocks.Flash.WriteAttempt | SylixOS/fs/yaffs2/yaffs_guts.c:507-573 | One attempt gives a chunk that holds what was written, or gives it back |
| YaffsBlocks.Flash.WriteNewChunk | SylixOS/fs/yaffs2/yaffs_guts.c:486-584 | Over all retries a chunk is written and stays, or none is; every invariant is kept and no chunk in use is touched. On a working device it succeeds if and only if there is room once the checkpoint has been given up |
| YaffsBlocks.Flash.CheckptInvalidate | SylixOS/fs/yaffs2/yaffs_checkptrw.c:465-474 | Dropping the stored checkpoint keeps all counters right and touches no other block; on a working device its blocks become erased ones |
| YaffsBlocks.Flash.CheckptErase | SylixOS/fs/yaffs2/yaffs_checkptrw.c:73-110 | All checkpoint blocks become empty, with erased pages, or dead; counters right, other blocks untouched |
| YaffsBlocks.Flash.RetireBlock | SylixOS/fs/yaffs2/yaffs_guts.c:590-630 | The block is dead afterwards and no longer counted |
| YaffsBlocks.Flash.BlockBecameDirty | SylixOS/fs/yaffs2/yaffs_guts.c:2365-2442 | A block without chunks is erased and counted, or retired; the counters agree with the blocks again |
| YaffsBlocks.Flash.ChunkDel | SylixOS/fs/yaffs2/yaffs_guts.c:2985-3041 | Exactly one chunk goes out of use, its block is erased if it was the last one, and the counters agree |
| YaffsBlocks.Flash.SoftDelChunk | SylixOS/fs/yaffs2/yaffs_guts.c:1247-1261 | Soft deletion counts the chunk free but leaves it in use |
| YaffsBlocks.Flash.UnsoftenChunk | SylixOS/fs/yaffs2/yaffs_guts.c:2512-2520 | Undoes what soft deletion counted |
| YaffsBlocks.Flash.SummaryWrite | SylixOS/fs/yaffs2/yaffs_summary.c:118-176 | The chunks behind those described are written and counted like any others |
| YaffsBlocks.Flash.SummaryAdd | SylixOS/fs/yaffs2/yaffs_summary.c:249-276 | When the last described chunk has been written the summary follows and the block is given up |
| YaffsBlocks.Flash.SummaryGc | SylixOS/fs/yaffs2/yaffs_summary.c:295-313 | The summary chunks go out of use and the counters agree |
| YaffsBlocks.Flash.CountFreeChunks | SylixOS/fs/yaffs2/yaffs_guts.c:5034-5057 | The sum over the block records is the running counter |
| YaffsBlocks.Flash.VerifyBlk | SylixOS/fs/yaffs2/yaffs_verify.c:52-94 | The run-time check of a block finds nothing wrong in any valid state |
| YaffsBlocks.Flash.VerifyBlocks | SylixOS/fs/yaffs2/yaffs_verify.c:111-162 | The run-time check of all blocks finds nothing wrong, also while a block is being collected |
| YaffsBlocks.TotalUpdate | SylixOS/fs/yaffs2/yaffs_guts.c:5034-5057 | A count over all blocks changes by what one block contributes |
| YaffsBlocks.SomeErased | SylixOS/fs/yaffs2/yaffs_guts.c:358-402 | A positive count of erased blocks has an empty block behind it |
| YaffsBitmap.ChunkBits.SetBit | SylixOS/fs/yaffs2/yaffs_bitmap.c:58-64 | The chunk joins the set of the block's chunks; no other block's row changes |
| YaffsBitmap.ChunkBits.ClearBit | SylixOS/fs/yaffs2/yaffs_bitmap.c:50-56 | The chunk leaves the set; no other block's row changes |
| YaffsBitmap.ChunkBits.ClearBits | SylixOS/fs/yaffs2/yaffs_bitmap.c:43-48 | The set of the block is empty; no other block's row changes |
| YaffsBitmap.ChunkBits.CheckBit | SylixOS/fs/yaffs2/yaffs_bitmap.c:66-72 | Tells whether the chunk is in the set |
| YaffsBitmap.ChunkBits.StillSome | SylixOS/fs/yaffs2/yaffs_bitmap.c:74-85 | Tells whether the set is not empty |
| YaffsBitmap.ChunkBits.Count | SylixOS/fs/yaffs2/yaffs_bitmap.c:87-97 | The size of the set |
| YaffsBitmap.WeightCounts | SylixOS/fs/yaffs2/direct/yaffs_hweight.c:39-44 | The weight of a byte is the number of its bits |
| YaffsBlocks.SummaryCounted | SylixOS/fs/yaffs2/yaffs_summary.c:118-176 | Adding the chunks of a summary keeps bits, page count and free count in agreement |
| YaffsGc.Dev.GcBlock | SylixOS/fs/yaffs2/yaffs_guts.c:2588-2687 | Collecting a full block, wholly or five chunks at a time, with failing writes, lack of space or an interruption, keeps the bijection between chunks in use and pointers and every object's data, and headers but for shrink and shadow marks and the size; a whole collection reclaims the block if and only if every copy succeeds and no chunk in use lies before the place where it starts |
| YaffsGc.Dev.GcProcessChunk | SylixOS/fs/yaffs2/yaffs_guts.c:2444-2586 | A live chunk is copied, repointed and deleted, a soft-deleted one dropped; on failure it stays as it was |
| YaffsGc.Dev.GcCopyLoop | SylixOS/fs/yaffs2/yaffs_guts.c:2631-2643 | The chunks are taken in order, and those dealt with go out of use, all but one that could not be copied: that is passed over |
| YaffsGc.Dev.CheckGc | SylixOS/fs/yaffs2/yaffs_guts.c:2858-2953 | Collection as every write begins with it: nobody can tell it from doing nothing. With a chunk passed over in the block being collected it goes on with that block and does not reclaim it |
| YaffsGc.Dev.StartNext | SylixOS/fs/yaffs2/yaffs_guts.c:2914-2923 | Starting on another block forgets the clean-ups still on the list; the objects stay as they are |
| YaffsGc.Dev.CleanUps | SylixOS/fs/yaffs2/yaffs_guts.c:2658-2673 | Only soft-deleted files without chunks are removed |
| YaffsGc.Dev.GenericObjDel | SylixOS/fs/yaffs2/yaffs_guts.c:1706-1724 | An object that has only its header left goes, header and all |
| YaffsGc.Dev.WrDataObj | SylixOS/fs/yaffs2/yaffs_guts.c:3043-3098 | The chunk of the file holds the new data, every other chunk of every file is kept, or nothing changes; it fails only for lack of memory for tnodes or of room, or on a faulty device |
| YaffsGc.Dev.PutChunk | SylixOS/fs/yaffs2/yaffs_guts.c:3077-3092 | The new chunk takes the place of its predecessor, which goes out of use |
| YaffsGc.Dev.DelFileChunk | SylixOS/fs/yaffs2/yaffs_guts.c:3693-3716 | The chunk cut off goes out of use and its entry is cleared; everything else is kept |
| YaffsGc.Dev.SoftDelData | SylixOS/fs/yaffs2/yaffs_guts.c:1271-1315 | Every chunk of the file becomes soft, once, and the file is marked; the free count grows by their number |
| YaffsGc.RehomedLinks | SylixOS/fs/yaffs2/yaffs_guts.c:2566-2585 | After writing a chunk elsewhere and deleting the original, chunks and pointers are again in bijection |
| YaffsGc.CountedSame | SylixOS/fs/yaffs2/yaffs_guts.c:1114-1245 | The number of data chunks counts the nonzero entries of the chunk map |
| YaffsGc.CopyKept | SylixOS/fs/yaffs2/yaffs_guts.c:2522-2585 | A copied chunk holds what the original held |
| YaffsGc.SoftDeletedLinks | SylixOS/fs/yaffs2/yaffs_guts.c:1271-1315 | A file all of whose chunks are soft may be marked soft-deleted |
| YaffsGc.UntouchedKept | SylixOS/fs/yaffs2/yaffs_guts.c:2588-2687 | Objects whose chunks stay in use keep what they hold |
| YaffsLeaf.LoadTnode0 | SylixOS/fs/yaffs2/yaffs_guts.c:800-829 | The entry reads back as the value cut to the width; the words are those of one stored entry, also across two words |
| YaffsLeaf.GetGroupBase | SylixOS/fs/yaffs2/yaffs_guts.c:831-856 | The entry, read across the word boundary if need be |
| YaffsLeaf.StoredEntry | SylixOS/fs/yaffs2/yaffs_guts.c:800-856 | What was stored is read back, and no other of the sixteen entries is touched |
| YaffsLeaf.ZeroLeaf | SylixOS/fs/yaffs2/yaffs_guts.c:1766-1807 | The words of a leaf are all zero exactly if its entries are |
| YaffsTree.AddKid | SylixOS/fs/yaffs2/yaffs_guts.c:974-1000 | Hooking in an empty tnode changes no entry |
| YaffsTree.Grow | SylixOS/fs/yaffs2/yaffs_guts.c:951-967 | A new root above the old one changes no entry |
| YaffsTree.SetLeaf | SylixOS/fs/yaffs2/yaffs_guts.c:1114-1245 | Changing a leaf changes the entries of that leaf only |
| YaffsTree.SomeEntry | SylixOS/fs/yaffs2/yaffs_guts.c:1766-1807 | A subtree with data maps some chunk number |
| YaffsTnodes.Tnodes.CreateTnodes | SylixOS/fs/yaffs2/yaffs_allocator.c:95-156 | That many new tnodes are threaded before the free list, unless memory is scarce; free and live together are the created ones |
| YaffsTnodes.Tnodes.AllocRawTnode | SylixOS/fs/yaffs2/yaffs_allocator.c:158-181 | The first free tnode is taken off the list; none only if the list is empty and memory is scarce |
| YaffsTnodes.Tnodes.FreeTnode | SylixOS/fs/yaffs2/yaffs_allocator.c:183-198 | A tnode in use goes back to the list once |
| YaffsTnodes.Tnodes.GetTnode | SylixOS/fs/yaffs2/yaffs_guts.c:771-784 | A cleared tnode, counted in use; none only if the free list is empty and memory is scarce |
| YaffsChunkMap.ChunkMap.FindTnode0 | SylixOS/fs/yaffs2/yaffs_guts.c:868-907 | The leaf of a chunk number, or none if the tree does not reach it |
| YaffsChunkMap.ChunkMap.FindChunk | SylixOS/fs/yaffs2/yaffs_guts.c:1055-1080 | The chunk the map has for a number if its bit says that it is in use, else -1; for groups of one chunk |
| YaffsChunkMap.ChunkMap.AddFindTnode0 | SylixOS/fs/yaffs2/yaffs_guts.c:923-1016 | Without a passed-in tnode: the leaf is there afterwards, unless the number is too large or memory ran out half-way; in each case no entry changes |
| YaffsChunkMap.ChunkMap.PutChunk | SylixOS/fs/yaffs2/yaffs_guts.c:1114-1245 | Outside scanning: lookup of that number gives the new value, every other is unchanged, the data chunks are counted; it fails only for a number that is too large or for lack of memory, and then the map is the same |
| YaffsChunkMap.ChunkMap.FindDelChunk | SylixOS/fs/yaffs2/yaffs_guts.c:1082-1112 | The same, and the entry is cleared if the chunk was found |
| YaffsChunkMap.OtherFileKept | SylixOS/fs/yaffs2/yaffs_guts.c:923-1016 | A file none of whose tnodes an operation may touch keeps its whole map |
| YaffsPrune.PruneWorker | SylixOS/fs/yaffs2/yaffs_guts.c:1766-1807 | Every entry is kept and exactly the tnodes that are gone have been freed; the leftmost tnode of a level stays |
| YaffsPrune.PruneTree | SylixOS/fs/yaffs2/yaffs_guts.c:1809-1849 | Every lookup is kept, the top stays, tnodes in use are the tree's, and the tree is as tall as its largest chunk number needs |
| YaffsPrune.TallEnough | SylixOS/fs/yaffs2/yaffs_guts.c:1826-1845 | A root with a second child is there for a chunk number |
| YaffsCheckpt.Writer.constructor | SylixOS/fs/yaffs2/yaffs_checkptrw.c:196-230 | Once there is room, opening for writing gives up any older checkpoint and starts an empty stream; as many pages can be written as the erased blocks have |
| YaffsCheckpt.Writer.FindErasedBlock | SylixOS/fs/yaffs2/yaffs_checkptrw.c:112-144 | The next empty block; it is found if and only if more blocks are erased than reserved, no search has failed before and an empty one lies behind the last |
| YaffsCheckpt.Writer.FlushBuffer | SylixOS/fs/yaffs2/yaffs_checkptrw.c:261-316 | The buffer becomes the next page with a right header, in the current block or the next empty one, if and only if a page is left; otherwise nothing changes. On a working flash the stored pages stay those of the stream |
| YaffsCheckpt.Writer.Wr | SylixOS/fs/yaffs2/yaffs_checkptrw.c:318-346 | The bytes are appended to the stream up to its capacity; when they just reach it the last flush has failed and the caller is not told; a call after that puts one byte behind the buffer |
| YaffsCheckpt.Writer.Close | SylixOS/fs/yaffs2/yaffs_checkptrw.c:423-463 | The last page is written, padded with zeros, if and only if a page is left; the stream can be read if every page was programmed, as on a working flash; the counters agree with the blocks; how many blocks and pages it takes |
| YaffsCheckpt.Reader.FindBlock | SylixOS/fs/yaffs2/yaffs_checkptrw.c:146-194 | Exactly the next block the writer used, up to the limit on blocks |
| YaffsCheckpt.Reader.CheckPage | SylixOS/fs/yaffs2/yaffs_checkptrw.c:382-400 | Of the pages of the stream only the next one, or one whose number is the same in 32 bits, passes the checks, and no erased page does; the next one always passes |
| YaffsCheckpt.Reader.NextPage | SylixOS/fs/yaffs2/yaffs_checkptrw.c:363-409 | The next page in the writer's order, or the end |
| YaffsCheckpt.Reader.Rd | SylixOS/fs/yaffs2/yaffs_checkptrw.c:348-421 | The bytes that follow those read so far; fewer than asked for only at the end |
| YaffsCheckpt.HeaderChecks | SylixOS/fs/yaffs2/yaffs_checkptrw.c:35-61 | A header as it is written passes the check when it is read |
| YaffsCheckpt.ReadsInOrder | SylixOS/fs/yaffs2/yaffs_checkptrw.c:348-421 | What has been read is always the beginning of what was stored |
| YaffsCheckpt.ReadsAllIff | SylixOS/fs/yaffs2/yaffs_checkptrw.c:238-247 | A stored checkpoint is read to its end if and only if it is in no more blocks than the reader looks for |
| YaffsCheckpt.TooManyBlocks | SylixOS/fs/yaffs2/yaffs_checkptrw.c:238-247 | Three bytes on three blocks of one page each are a readable checkpoint of more blocks than the reader looks for |
| YaffsCheckpt.WriteAll | SylixOS/fs/yaffs2/yaffs_checkptrw.c:318-346 | Pieces are written until one is not taken; all are taken if and only if each ends within the capacity, or starts behind it and is a single byte or empty |
| YaffsCheckpt.TakenIff | SylixOS/fs/yaffs2/yaffs_checkptrw.c:318-346 | For pieces none of which is a single byte that is so if and only if they fit |
| YaffsCheckpt.LastPageLost | SylixOS/fs/yaffs2/yaffs_checkptrw.c:318-346 | Five bytes for which there is room for four on the flash are reported as written |
| YaffsCheckpt.ByteBehindBuffer | SylixOS/fs/yaffs2/yaffs_checkptrw.c:329-343 | With the buffer full a ninth byte is taken, to be put behind the buffer |
| YaffsCheckpt.WriteCheckpoint | SylixOS/fs/yaffs2/yaffs_checkptrw.c:196-463 | Success is reported if and only if more blocks are erased than reserved and the pieces fit into the pages and once more into the buffer; the stored bytes begin with the data if and only if it fits into the pages; it can be read back if every page was programmed, as on a working flash; its pages and blocks follow from the amount of data, the erased blocks and the page size; the counters agree in any case |
| YaffsCheckpt.ReadCheckpoint | SylixOS/fs/yaffs2/yaffs_checkptrw.c:196-463 | However the reads are cut, the same bytes come back in the same order |
| YaffsCheckpt.WriteAndRead | SylixOS/fs/yaffs2/yaffs_checkptrw.c:196-463 | On a working flash with more blocks erased than reserved, data that fits into the pages and takes no more blocks than the reader looks for comes back byte for byte, for any cut of the writes and the reads |
| YaffsCache.CalcShifts | SylixOS/fs/yaffs2/yaffs_guts.c:104-119 | The chunk size is an odd number times that power of two |
| YaffsCache.AddrToChunk | SylixOS/fs/yaffs2/yaffs_guts.c:49-73 | For every position in range the chunk number and offset are quotient and remainder, for any chunk size |
| YaffsCache.ChunkRightIff | SylixOS/fs/yaffs2/yaffs_guts.c:55-67 | The chunk number is right if and only if the shifted position fits 31 bits, for chunk sizes that are a power of two, or 32 bits, for others |
| YaffsCache.PowerOfTwoTooFar | SylixOS/fs/yaffs2/yaffs_guts.c:55-67 | With 2048-byte chunks the number comes out negative from position 2^42 on |
| YaffsCache.OtherSizeTooFar | SylixOS/fs/yaffs2/yaffs_guts.c:55-67 | With 2032-byte chunks position 2^35 is right and 2^36 comes out as chunk 0 |
| YaffsCache.Cache.FlushSingleCache | SylixOS/fs/yaffs2/yaffs_guts.c:1452-1471 | What is seen of every chunk stays if and only if the slot is kept, its write succeeds or the flash held its data already; else the chunk falls back to what the flash holds. The result of the write is not looked at |
| YaffsCache.FlushKeptIff | SylixOS/fs/yaffs2/yaffs_guts.c:1452-1471 | For any flush, what is seen stays if and only if the slot is kept, its write succeeds or the flash held its data before |
| YaffsCache.FailedFlushLoses | SylixOS/fs/yaffs2/yaffs_guts.c:1452-1471 | A discarding flush of one byte whose write fails loses it |
| YaffsCache.AcceptedRightIff | SylixOS/fs/yaffs2/yaffs_guts.c:3633-3647 | A chunk write past the cache whose result is not negative is taken for a success: of what is seen of the chunk afterwards that is right if and only if the result is not 0 or the flash held the same already |
| YaffsCache.AcceptedButLost | SylixOS/fs/yaffs2/yaffs_guts.c:3633-3647 | A byte written to a new file without memory for a tnode counts as written and reads as zero |
| YaffsCache.Cache.FlushFileCache | SylixOS/fs/yaffs2/yaffs_guts.c:1473-1491 | Every slot of the file is flushed and no other is touched |
| YaffsCache.Cache.FlushWholeCache | SylixOS/fs/yaffs2/yaffs_guts.c:1494-1513 | Ends; nothing is dirty, and if no write failed the flash holds everything that is seen |
| YaffsCache.Cache.GrabChunkCache | SylixOS/fs/yaffs2/yaffs_guts.c:1534-1575 | A free slot, or the least recently used one after flushing it; nothing seen changes unless a write failed |
| YaffsCache.Cache.FindChunkCache | SylixOS/fs/yaffs2/yaffs_guts.c:1578-1596 | The slot of a chunk if there is one |
| YaffsCache.Cache.UseCache | SylixOS/fs/yaffs2/yaffs_guts.c:1599-1620 | Only marks of use, and the dirty mark of the slot written, change |
| YaffsCache.Cache.InvalidateChunkCache | SylixOS/fs/yaffs2/yaffs_guts.c:1626-1639 | The chunk is seen as the flash holds it |
| YaffsCache.Cache.WriteWhole | SylixOS/fs/yaffs2/yaffs_guts.c:3633-3641 | The chunk is seen as the data if the write succeeded, else as the flash holds it; it succeeds on a working device; when the caller is right to take the result for a success |
| YaffsCache.FailedWholeKeptIff | SylixOS/fs/yaffs2/yaffs_guts.c:3633-3641 | A failed write past the cache leaves the file as it was if and only if no dirty slot held newer data of the chunk |
| YaffsCache.FailedWholeLoses | SylixOS/fs/yaffs2/yaffs_guts.c:3633-3641 | A byte in the cache that was never written is lost when the write past it fails |
| YaffsCache.Cache.WriteCached | SylixOS/fs/yaffs2/yaffs_guts.c:3592-3610 | The bytes replace those of the slot; written through they are on the flash if and only if the write succeeds or they were there already |
| YaffsCache.Cache.FileRd | SylixOS/fs/yaffs2/yaffs_guts.c:3409-3486 | On a working device, and on any as long as no chunk write has failed, the bytes read are those of the file and nothing seen changes; with nothing dirty reading writes nothing |
| YaffsCache.Cache.DoFileWr | SylixOS/fs/yaffs2/yaffs_guts.c:3488-3659 | On a working device, and on any as long as no chunk write has failed, the file holds the bytes written and is otherwise as it was, every other file too; on a working device with space all of them are written |
| YaffsCache.WritebackRightIff | SylixOS/fs/yaffs2/yaffs_guts.c:3531-3546 | The recorded byte count is what the file has in the chunk afterwards if and only if the 32-bit subtraction does not cut it below the chunk size |
| YaffsCache.WritebackTooSmall | SylixOS/fs/yaffs2/yaffs_guts.c:3531-3546 | Overwriting the first byte of a file of four gigabytes records one byte for the whole chunk |
| YaffsCache.PartOverlaid | SylixOS/fs/yaffs2/yaffs_guts.c:3488-3659 | A changed part of a chunk is exactly a changed part of its file |
| YaffsEcc.TableRight | SylixOS/fs/yaffs2/yaffs_ecc.c:35-68 | Every entry of the table is the column parities and the parity of its byte |
| YaffsEcc.FlipSums | SylixOS/fs/yaffs2/yaffs_ecc.c:205-229 | Flipping one bit changes the sums by what that bit contributes |
| YaffsEcc.CalcOther | SylixOS/fs/yaffs2/yaffs_ecc.c:205-229 | The loop computes the code of the data |
| YaffsEcc.CorrectOther | SylixOS/fs/yaffs2/yaffs_ecc.c:231-281 | Data, code and result for every difference, including a line number beyond the data |
| YaffsEcc.CorrectsOne | SylixOS/fs/yaffs2/yaffs_ecc.c:231-281 | For any length, a single flipped bit of data or code is found out exactly; undoing it gives the data back |
| YaffsEcc.DetectsTwo | SylixOS/fs/yaffs2/yaffs_ecc.c:231-281 | For any length, any two flipped bits of data or code are reported and nothing is changed |
| YaffsEcc.OneBitIff | SylixOS/fs/yaffs2/yaffs_ecc.c:269-271 | The weights add up to one if and only if a single bit is set |
| YaffsEcc.Calc | SylixOS/fs/yaffs2/yaffs_ecc.c:72-131 | The loop and the packing compute the three bytes |
| YaffsEcc.Correct | SylixOS/fs/yaffs2/yaffs_ecc.c:135-200 | Data, code and result for every difference of the three bytes |
| YaffsEcc.CorrectsOne256 | SylixOS/fs/yaffs2/yaffs_ecc.c:135-200 | For a 256-byte block, a single flipped bit of the data or of the 22 bits of code is found out exactly |
| YaffsEcc.DetectsTwo256 | SylixOS/fs/yaffs2/yaffs_ecc.c:135-200 | For a 256-byte block, any two flipped bits are reported and nothing is changed |
| YaffsEcc.PackedDiff | SylixOS/fs/yaffs2/yaffs_ecc.c:91-129 | The difference of two packed codes is the packed difference |
| YaffsNameVal.NameVal.Find | SylixOS/fs/yaffs2/yaffs_nameval.c:32-55 | Position and size of the record of the name; none is found if and only if the map does not have the name |
| YaffsNameVal.NameVal.Used | SylixOS/fs/yaffs2/yaffs_nameval.c:57-71 | The bytes taken by the records |
| YaffsNameVal.NameVal.Del | SylixOS/fs/yaffs2/yaffs_nameval.c:73-87 | The map loses exactly that name, and a record that ended with the buffer comes back; if the name was not there nothing changes; no byte behind the buffer changes |
| YaffsNameVal.NameVal.Set | SylixOS/fs/yaffs2/yaffs_nameval.c:89-127 | The map has the value at that name and is otherwise the same, unless the record fills the room to its last byte, when it is lost, or more than that: a lost record comes back when the old record of the name goes, and leaves the room of that one only. What is written and cleared behind the buffer, byte for byte. Each of the three failures changes nothing |
| YaffsNameVal.NameVal.Get | SylixOS/fs/yaffs2/yaffs_nameval.c:129-165 | The value, its length for a size query, or which error |
| YaffsNameVal.NameVal.List | SylixOS/fs/yaffs2/yaffs_nameval.c:167-203 | The longest run of names from the first that fits, each with its terminator; all of them if they fit |
| YaffsNameVal.LastFoundIff | SylixOS/fs/yaffs2/yaffs_nameval.c:39-51 | A reader of the buffer meets the last record if and only if the buffer does not end with it |
| YaffsNameVal.FullBufferReadsEmpty | SylixOS/fs/yaffs2/yaffs_nameval.c:39-51 | A buffer of eight bytes with one record of eight reads as empty |
| YaffsNameVal.ValuesWithout | SylixOS/fs/yaffs2/yaffs_nameval.c:73-87 | Leaving a record out removes its name from the map and keeps every other value |
| YaffsNameVal.TidyWithout | SylixOS/fs/yaffs2/yaffs_nameval.c:84-85 | Shifting the rest over a record and clearing the end leaves a buffer that holds the others, with a record that ended with the buffer among them |
| XsiSem.SemSet.TrySemop | SylixOS/xsiipc/sem.c:478-544 | All operations of the batch, judged one after the other, or none: on failure or block every value is restored, repeated numbers included |
| XsiSem.SemSet.RollBack | SylixOS/xsiipc/sem.c:536-541 | Taking back in reverse restores the values |
| XsiSem.SemSet.Record | SylixOS/xsiipc/sem.c:512-519 | The adjustments of the batch are recorded for the process |
| XsiSem.SemSet.Semop | SylixOS/xsiipc/sem.c:549-608 | The batch is done and everybody woken, or the first operation that does not pass decides on an error, which changes nothing, or on waiting; without memory for an undo record, which is so only when memory is scarce, nothing changes; no wakeup is lost |
| XsiSem.SemSet.Retry | SylixOS/xsiipc/sem.c:569-606 | A woken thread tries again with the same outcome rules |
| XsiSem.SemSet.TimeOut | SylixOS/xsiipc/sem.c:590-600 | A wait that ends by timeout changes no value |
| XsiSem.SemSet.SetVal | SylixOS/xsiipc/sem.c:412-439 | One value set, everybody woken; out of range changes nothing |
| XsiSem.SemSet.SetAll | SylixOS/xsiipc/sem.c:443-472 | All values set and all process numbers, and everybody woken, or, if one is out of range, none |
| XsiSem.SemSet.ExitPid | SylixOS/xsiipc/sem.c:798-849 | The undo record of a process is applied, with the process numbers of the semaphores it adjusts, and dropped, and every thread of another process that waited is ready; without a record the threads of the others wait and are ready as before |
| XsiSem.ValsStayInRange | SylixOS/xsiipc/sem.c:488-501 | Every value stays between 0 and the maximum through a batch |
| XsiSem.ExitValueMeaning | SylixOS/xsiipc/sem.c:817-839 | The lower cap at exit never takes effect: the value is the promised one if and only if the sum is not negative, and the maximum otherwise |
| XsiSem.ExitBelowZero | SylixOS/xsiipc/sem.c:817-839 | A value of 0 with an adjustment of -1 becomes the maximum |
| XsiSem.WaitsAfterFirstUse | SylixOS/xsiipc/sem.c:570-578 | A new undo record lets nobody's batch through |
| XsiSem.EventConserves | SylixOS/xsiipc/sem.c:503-519 | A value plus all adjustments changes by exactly the plain operations if and only if no cap takes effect and no adjustment overflows, and modulo 65536 even then |
| XsiSem.ExitConserves | SylixOS/xsiipc/sem.c:817-839 | An exit keeps the balance if and only if no cap takes effect |
| XsiSem.AdjustmentOverflows | SylixOS/xsiipc/sem.c:503-519 | Value 30000 and the batch -20000 with undo, +20000, -20000 with undo: every check passes and the adjustment is -25536 |
| XsiSem.RunConserves | SylixOS/xsiipc/sem.c:503-519 | Over any run of batches and exits without cap and overflow the balance changes by exactly the plain operations |
| XsiSem.RunConservesModulo | SylixOS/xsiipc/sem.c:503-519 | With overflows, but no cap, the same modulo 65536 |
| XsiSem.CallIsRun | SylixOS/xsiipc/sem.c:549-608 | Every call of semop is a run |
| XsiSem.RunsJoin | SylixOS/xsiipc/sem.c:549-608 | Runs one after the other are a run, so what holds of runs holds of sequences of calls |
| XsiSem.NothingLeft | SylixOS/xsiipc/sem.c:806-846 | When every process that used undo has exited, the values are those of the plain operations alone |

## Left out

- FatFs: entry allocation, path parsing, short names, truncation, closing and syncing a file, FSINFO, volume labels,
  formatting, locking; fast seek is switched off in the source's configuration.
- FatFile.Fil.FRead: after a failed transfer nothing is said of the file or of the others.
- FatFile.Fil.FWrite: the same; what `FatVolume.FatFs.PutFat` keeps even then is stated there.
- FatFile.Fil.FLseek: the same.
- FatDir.Dir.Next: after a failed transfer while stretching only the drive layer is known to be sound.
- FatFs: the window and the private buffer are sequences in fields, not arrays, so aliasing of the two buffers is not
  modelled; masks with powers of two are written as remainders.
- FatFs: a failed drive write is taken to leave the drive as it was, a failed read may leave anything in the buffer;
  the code ignores failures to write the second FAT, and the model records that in a ghost flag.
- FatFs: chains are sound and no stored entry is 1 where a result says so; the number of entries is at most
  0x0FFFFFFF.
- FatLfn: ff_wtoupper is any function that maps only the terminator to the terminator; the checksum of the short name
  is a parameter.
- Whether a drive, a flash or memory may fail is a constant of the object (`faulty`, `crowded`, `scarce`), and what
  one that may not fail achieves is stated for it; whether it does fail is chosen freely at each step.
- YaffsBlocks.Flash.WriteNewChunk: at least one write attempt is allowed; with a limit of zero or less the code goes
  on until a write succeeds or no chunk can be taken.
- YaffsBlocks: a chunk is a pair of block and page, the chunk bits of a block are a set, which `YaffsBitmap` shows the
  bitmap to be; the contents and checksum of a summary are not modelled; read errors count against a block but the
  data is taken as corrected; sequence numbers do not wrap; a page that a failed write or deletion leaves behind does
  not bear the mark of a checkpoint.
- YaffsGc: which full block is collected (yaffs_find_gc_block), background collection, and yaffs_yaffs2.c, which is
  not part of this model (it picks blocks to refresh); a victim is always full. Deleted objects are already in the
  deleted directory, so removing one rewrites no header, and a deferred free of an inode is taken as the removal.
  Headers are only copied, not updated (yaffs_update_oh).
- YaffsGc: the chunk map of a file is a map; `YaffsChunkMap` shows that the tree refines it.
- YaffsChunkMap.ChunkMap.FindDelChunk: groups of one chunk only, as for FindChunk.
- YaffsChunkMap.ChunkMap.FindChunk: groups of one chunk only; in larger groups the tags of each chunk are read.
- YaffsChunkMap.ChunkMap.AddFindTnode0: no tnodes passed in when a checkpoint is restored.
- YaffsChunkMap.ChunkMap.PutChunk: no scanning, which compares serial numbers with an existing chunk.
- YaffsChunkMap: entries of an even width from 16 to 30 bits; the union of words and pointers in a tnode is two
  fields; memory is handed out at increasing addresses.
- YaffsCheckpt: what the stream contains is not modelled, nor what closing a reader does to the blocks it listed;
  pages that were programmed read back as they are. Page numbers are taken modulo 2^32. The memory that follows the
  buffer is a parameter.
- YaffsCheckpt.Reader.Rd: no further read once a read has met the end of the stream, as the callers see to; the code
  would go on to look for a block with the number -1.
- YaffsCheckpt.WriteCheckpoint: when the stream cannot be opened for lack of space the code closes it all the same,
  with what an earlier session left in its fields (yaffs_checkptrw.c:204-205, 429-432); the model does nothing then.
- YaffsCache: resizing a file, holes, and the header update after a write; the lock flag of a slot, which is never set
  between calls; a chunk write is atomic, as `YaffsGc.Dev.WrDataObj` shows it to be.
- YaffsEcc: the code used for YAFFS1 tags.
- YaffsNameVal.NameVal.Set: not from a buffer that a set has written past the end of; reading such a buffer is
  covered.
- YaffsNameVal.NameVal.Del: the same.
- YaffsNameVal: integers are stored lowest byte first; the memory that follows the buffer is a parameter.
- XsiSem.SemSet.TrySemop: operations name semaphores of the set, which the code does not check.
- XsiSem: one set per object; permissions, removal of a set, waiter counts and times; the threads of an exiting
  process are gone.
- YAFFS scanning, directories, rename, links, lost and found, the MTD drivers; the other XSI facilities; RPC stubs.
