# IDKFS, modelled and proved

IDKFS is a small file system with a userspace block engine, a kernel block driver, a tiered
extent allocator and a snapshot daemon. This project models the parts of it that carry state
and proves what each operation does to all of that state, for every input, and what holds after
every run.

Each C or Rust function is modelled twice. A function over values says what the code computes;
a class updated in place runs the same loops and branches as the source, and its methods are
proved to leave exactly the value that function gives (`ensures (View(), r) == F(old(View()), …)`).
The theorems are about the functions, so they hold of the class.

| file | code | contents |
|---|---|---|
| Machine, Bitmap, Volume | idkfs_core.c | machine integers, the bit-packed bitmap, blocks, inodes, mapping, reading and writing |
| Ownership, FileIO, Placement, Release | idkfs_core.c, idkfs_fuse.c | who owns which block; read and write against a byte map; what a write may touch; what unlink frees |
| ZeroFill, WriteRoom, WriteExact, ReadExact | idkfs_core.c | the exact price of filling a pointer block with 0; exactly when a write succeeds, is the byte-map update, and is given back by a read |
| Directory, Namespace, TreeSteps, Operations, FileWrites | idkfs_core.c, idkfs_fuse.c | the directory file, the namespace tree, and every operation on both |
| Accounting | idkfs_core.c, idkfs_fuse.c | where every block is; a file's whole life gives everything back |
| Paths, PathFrames, Mkfs, Runs | idkfs_fuse.c, idkfs_core.c | path resolution, mkfs, runs of calls from mkfs on |
| Layout, Calls | idkfs_core.c, idkfs_fuse.c | which bit, byte and block things are in, in plain numbers; what each call answers and leaves, field by field |
| FileSystem | idkfs_core.c, idkfs_fuse.c | the class `Idkfs`, all of the above in place |
| Crc | idkfs_core.c | the table-driven CRC |
| BlockMap, Journal | idkfs_blk.c | the six-level block map; flush, replay, torn flushes |
| Extents | idkfs_vfs.c | tier cursors and extents |
| Snapshots, MetaList | daemon/src/main.rs | the native snapshot table, list.txt |

## Where the code does not do what it is for

The model follows the code. Where a property one would expect is false of it, the project gives
the exact condition under which it holds, or an input for which it fails.

- A fresh pointer block is filled with 0, but "unmapped" means 0xFFFFFFFF
  (idkfs_core.c:213, :191, :240; idkfs_fuse.c:417). The volume carries the fill byte: 0x00 is the code,
  0xFF the value for which the two agree, and every invariant is proved for both. What the zero fill
  breaks is stated as if-and-only-ifs: `ZeroFill.NoSharingIff`, `WriteExact.WriteRefinesIff`,
  `ReadExact.ReadBackIff`, `ZeroFill.UnlinkConservesIff`, `Accounting.LifeOfAFile`; what a release
  frees with either fill is `Release.ReleaseExact`.
- A data block taken for a mapping that then fails is not given back (idkfs_core.c:197-223). The
  blocks so lost are a set, `Leaked`, and every statement about ownership accounts for it:
  `Ownership.MapLeaksIff` says when a mapping loses its block, `FileIO.HighWriteLeaks` gives writes
  that always do, and `Runs.ReachableLeaks` bounds the loss of a run by its failed writes.
- mkdir ignores the results of its three directory updates (idkfs_core.c:375-377):
  `Operations.MkdirKeepsIff`.
- fuse_truncate sets the size of anything: `Operations.TruncateKeepsIff`. The kernel truncates no
  directory, so one reaches the function only from a caller of its own.
- fuse_unlink frees a file's blocks before it looks for the entry, so a path with a trailing slash
  empties the file and then fails: `Runs.UnlinkErrorIff`. The kernel side of FUSE splits off the last
  name itself, so such a path reaches the function only from a caller of its own.
- Logical block numbers are cut to 32 bits (idkfs_core.c:235, :258), so a write at or beyond 2^44
  lands on the bytes below: `WriteRoom.WriteWraps`, `WriteExact.WriteRefinesIff`.
- Pointer addresses wrap at 2^64 (idkfs_blk.c:79, :94): `BlockMap.GuardSoundIff`,
  `BlockMap.DistinctPointersNotEnough`.
- A flush writes the old generation, so a clean reload takes the newest number back while keeping
  all the data: `Journal.ReloadTakesBackOnlyTheNumber`. mkfs_idkfs puts the transaction record eight
  bytes before the block the superblock names: `Journal.MkfsRecordNotFound`.
- Tier cursors have no zone end (idkfs_vfs.c:78-87), and fsck cannot see the double allocation that
  follows: `Extents.DistinctIff`, `Extents.FsckMissesOverlap`.
- The snapshot buffer holds 46 entries, not the 64 of the guard (daemon/src/main.rs:208):
  `Snapshots.CreateLists`.

## Model

| member | source | states |
|---|---|---|
| Bitmap.SetBitOnly | idkfs_core.c:125-133 | setting or clearing one bit of the packed bytes changes that bit's test and no other's |
| Bitmap.FreeSetOps | idkfs_core.c:125-130 | setting removes exactly that block from the set of clear bits, clearing adds exactly it |
| Bitmap.Choose | idkfs_core.c:134-146 | the block chosen was clear, and -1 comes back if and only if none is |
| Bitmap.BitmapAlloc | idkfs_core.c:134-146 | the two scanning loops choose that block and set exactly its bit |
| Layout.BitOfBlock | idkfs_core.c:125-133 | block b is bit b mod 8, least significant first, of byte b / 8 |
| Layout.TakesLowest | idkfs_core.c:134-146 | the block taken is the lowest clear one from 138 on, or the lowest of all if there is none; it is filled, one bit and one of free_blocks go with it, and nothing else changes |
| Ownership.PtrAtPutPtr | idkfs_core.c:217-220 | writing one 32-bit pointer of a block changes that entry and no other |
| Ownership.TakeBlockSound | idkfs_core.c:134-146 | allocation never hands out metadata or a block any inode owns, takes exactly one free bit and keeps the ownership invariant; it fails if and only if no bit is clear |
| Ownership.MapBlockSound | idkfs_core.c:196-224 | mapping keeps the ownership invariant on every path; it succeeds if and only if the block is in range and one or two blocks are free; then exactly one data slot, holding a zeroed block nobody owned, and at most a pointer block are added; when it fails no pointer moves and the lost block is accounted for |
| Layout.MapsLowest | idkfs_core.c:196-224 | the data block of a mapping is the lowest free block, the pointer block it may need the lowest after that |
| Ownership.MapLeaksIff | idkfs_core.c:196-224 | a mapping loses the block it took if and only if it is refused with a block to spare: out of range, or one block left where two are needed |
| FileIO.ChunkSound | idkfs_core.c:257-277 | one turn of the write loop keeps sound ownership and exact block counts, moves no other inode's record and drops no pointer |
| FileIO.ChunkCells | idkfs_core.c:257-277 | of all bytes of all files a turn changes exactly its own; the rest of a newly mapped block reads 0 whatever it held |
| FileIO.FailedChunkCells | idkfs_core.c:257-277 | a failed turn changes no byte of any file |
| FileIO.WriteFileSound | idkfs_core.c:253-287 | for every inode, data and offset a write keeps the invariant, sets the size to max(old, end) only when it succeeds, and a successful one loses no block |
| FileIO.WriteFileLeaks | idkfs_core.c:253-287 | a write loses a block only when it fails, then at most one, and never gives a lost one back |
| FileIO.HighWriteLeaks | idkfs_core.c:196-224 | a write that starts past the reach of the pointer block fails and, while a block is free, loses exactly one |
| WriteRoom.WriteSucceedsIff | idkfs_core.c:253-287 | a write succeeds if and only if its range, counted modulo 2^44, is within reach of the pointer block and the blocks it lacks are there to be had, and it takes exactly those: for every offset, content and fill |
| WriteExact.WriteRefinesIff | idkfs_core.c:253-287 | every successful write of n bytes at an offset is exactly the byte-map update, whatever its content, if and only if n is 0, there is no room for it, or it starts below 2^44 and stays off the unused entries of a zero-filled pointer block |
| WriteRoom.WriteWraps | idkfs_core.c:253-287 | a write 2^44 bytes further on succeeds in the same cases and leaves the same volume, but for the size it records |
| WriteExact.ConstLoopSets | idkfs_core.c:253-287 | after a successful write of one repeated byte every byte of its range reads as that byte, shared blocks and wrapped offsets included |
| FileIO.WriteFileRefines | idkfs_core.c:253-287 | under the condition of WriteExact.WriteRefinesIff: a successful write is exactly a byte-map update of that one file, though pointer blocks share the disk, and when it fails a proper prefix has been written |
| FileIO.ReadFilePrefix | idkfs_core.c:226-251 | a read returns exactly the longest mapped prefix of the part of the request below the size, byte for byte |
| FileIO.ReadFileMapped | idkfs_core.c:226-251 | the chunked loop equals reading one byte at a time up to the first unmapped one |
| Layout.ByteOfFile | idkfs_core.c:181-194 | byte pos of a file: the first 49152 through the twelve direct pointers, the next 4 MiB through the little-endian words of the pointer block, none elsewhere |
| ReadExact.ReadBackIff | idkfs_core.c:226-287 | a read gives back what any successful write of n bytes put down, wherever it starts, if and only if there is no room for it or no two of its bytes are at one offset of two blocks without an entry of their own in a zero-filled pointer block |
| ReadExact.PlaceIff | idkfs_core.c:205-277 | two bytes of a write end up in one place on disk exactly when both are in such blocks, at the same offset |
| Release.DropEntriesExact | idkfs_fuse.c:412-422 | the loop over a pointer block counts up by exactly the blocks it frees, provided they are distinct and taken |
| Release.DropEntriesTwice | idkfs_fuse.c:412-422 | with two entries naming one block, the count ends above the number of clear bits |
| Release.ReleaseExact | idkfs_fuse.c:404-430 | of any file unlink frees exactly the blocks it owned, and block 0 if it has a zero-filled pointer block, which leaves free_blocks 1023 above the number of clear bits, or 1022 if an entry held a block; without one it keeps the invariant and every other pointer |
| Release.ReleaseConservesIff | idkfs_fuse.c:404-430 | free_blocks stays the number of clear bits if and only if the file has no zero-filled pointer block |
| ZeroFill.NoSharingIff | idkfs_core.c:205-221 | no two logical blocks of any files resolve to one disk block if and only if pointer blocks are filled with the null value or there are none |
| ZeroFill.ChunkRefinesIff | idkfs_core.c:257-277 | a write into one block refines the byte-map update for every content if and only if it stays off the unused entries of a zero-filled pointer block |
| ZeroFill.OffsetsWrap | idkfs_core.c:235-258 | reading byte pos + 2^44 of a file is reading byte pos |
| ZeroFill.UnlinkConservesIff | idkfs_fuse.c:388-436 | the whole unlink keeps the count if and only if the file has no zero-filled pointer block |
| Directory.DirRoundTrip | idkfs_core.c:289-304 | the directory structure read from its own bytes is that structure |
| Directory.SameNameMeans | idkfs_core.c:307-316 | strncmp over 255 characters holds exactly when the stored name is the name cut to 255 |
| Directory.StoredName | idkfs_core.c:289-304 | strncpy into the field stores the name cut to 255 |
| Directory.StoreDirReady | idkfs_core.c:289-304 | writing back a directory that holds entries allocates nothing, moves no pointer and reads back as what was written |
| Layout.DirLayout | idkfs_core.c:75-84 | a directory's bytes: a count and 128 entries of 261 bytes, each inode, type, length and 255 bytes of name, numbers little-endian |
| Layout.EntryMeans | idkfs_core.c:289-304 | a new entry: inode, type, the name's length modulo 256 and the name cut to 255 characters and padded with zeros; for names of up to 255 that length of the field is the name |
| Layout.LookupMeans | idkfs_core.c:307-316 | a lookup gives the inode of the first entry holding the name's first 255 characters, and -1 when there is none or the directory was never written |
| Layout.RemoveMeans | idkfs_core.c:334-341 | removing an entry moves those after it down in order and zeroes the last place |
| Layout.RemoveAnswers | idkfs_core.c:318-343 | ENOTDIR off a directory and ENOENT for a name not held, both changing nothing; else 0 |
| TreeSteps.AddedTree | idkfs_core.c:289-380 | adding one entry for one new inode keeps the namespace tree: types, single names, dot-dot, link counts and the free inode count |
| TreeSteps.RemovedTree | idkfs_core.c:318-343 | removing one file's entry and inode keeps it |
| Operations.NewInodeSound | idkfs_core.c:148-165 | a new inode was free, owns nothing, and is refused if and only if inodes 1 to 4095 are all taken |
| Operations.CreateKeeps | idkfs_core.c:345-361 | create keeps the whole invariant; it fails if and only if there is no free inode or the directory is full, and then changes nothing; else it adds exactly one entry and takes no block |
| Operations.MkdirKeepsIff | idkfs_core.c:363-380 | mkdir returns an error only for want of an inode; it keeps the invariant if and only if the parent had a free entry and nine blocks were free, which it then uses up exactly; it never loses a block |
| Operations.UnlinkKeeps | idkfs_fuse.c:388-436 | unlinking a file, with either fill, succeeds, removes the first matching entry and keeps the namespace a tree; without a zero-filled pointer block it keeps the whole invariant and frees exactly what the file owned; a directory is refused untouched |
| Operations.UnlinkMissing | idkfs_fuse.c:388-436 | with an inode that is no directory for a parent, ENOTDIR is returned and the file keeps its name but has lost its blocks, with either fill |
| Operations.TruncateKeepsIff | idkfs_fuse.c:355-363 | truncate keeps the invariant if and only if it is not given a directory or leaves its size |
| FileWrites.WriteKeeps | idkfs_core.c:253-287 | a write to a file, anywhere and however it ends, keeps the whole invariant, directories included |
| Accounting.FreeExactly | idkfs_core.c:125-224 | a block is free if and only if it is a data block that no file owns and no failed mapping lost |
| Accounting.LifeOfAFile | idkfs_fuse.c:326-436 | create, any successful writes, then unlink give back the bitmap, every counter, every inode and every directory's names exactly (only disk contents may differ) if and only if the file got no zero-filled pointer block |
| Paths.TokensSplit | idkfs_fuse.c:150-201 | the tokens of a path are its parent's tokens and one more, whatever slashes separate them |
| Paths.ParentThenLookup | idkfs_fuse.c:150-201 | resolving a path is looking its last name up in its resolved parent, errors included |
| Paths.ResolveNames | idkfs_fuse.c:150-176 | a path "/n1/.../nk" of at most 4095 characters resolves by k successive lookups from inode 0, with ENOTDIR and ENOENT where one fails |
| Paths.ParentOfNames | idkfs_fuse.c:178-201 | its parent is what n1 to n(k-1) resolve to, errors included, and the name in it nk cut to 255 characters |
| Paths.LongPath | idkfs_fuse.c:150-184 | of a longer path only the first 4095 characters count |
| Paths.ExtraSlashes | idkfs_fuse.c:150-201 | a doubled slash changes nothing, nor does one at the end, behind which the last name is empty |
| Paths.NoSlash | idkfs_fuse.c:184-186 | a path without a slash has no parent: ENOENT |
| PathFrames.AddedWalk | idkfs_fuse.c:150-176 | adding a name leaves every walk that does not ask for it as it was, at any depth |
| PathFrames.RemovedWalk | idkfs_fuse.c:150-176 | removing a name leaves every walk that does not ask for it as it was |
| PathFrames.RemovedNameIff | idkfs_core.c:318-343 | the removed name is gone if and only if the directory held it once |
| Mkfs.FormattedInv | idkfs_core.c:401-448 | the fresh volume satisfies the whole invariant, with nothing lost and nine blocks used by the root |
| Calls.FormattedMeans | idkfs_core.c:401-448 | the fresh volume: 65389 blocks and 4095 inodes free, blocks 0 to 137 taken, inode 0 a directory of two links holding "." and "..", every other record zero |
| Runs.StepKeepsIff | idkfs_fuse.c:316-436 | of the calls whose parent is a directory or whose handle is of a file still there, one keeps the whole invariant, whatever it returns, if and only if it is sustained: room for a new directory, no zero-filled pointer block to release, no directory resized |
| Runs.RunKeepsIff | idkfs_fuse.c:316-436 | every state along a run of such calls is sound if and only if every call of it is sustained |
| Runs.ReachableInv | idkfs_core.c:125-380 | in every state reached from mkfs by guarded calls: no block is owned twice, every owned block is a data block marked taken, free_blocks is the number of clear bits, block_count the number of mapped blocks, and the namespace is a tree, every directory below the root |
| Runs.ReachableLeaks | idkfs_core.c:196-224 | over every such run the blocks lost are at most the writes that failed; while none fails, every taken data block has an owner |
| Runs.CreatePaths | idkfs_fuse.c:326-340 | after a create every path that resolved resolves alike, every path not asking for the new name is unchanged, errors included, and the path itself, if it did not resolve before, reaches the new inode |
| Runs.MkdirPaths | idkfs_fuse.c:342-353 | the same after mkdir, the path itself, if it did not resolve before, reaching a new directory |
| Runs.UnlinkPaths | idkfs_fuse.c:388-436 | after unlink every path not asking for the removed name is unchanged, and the path gives ENOENT if and only if its directory held the name once; with either fill |
| Runs.UnlinkErrorIff | idkfs_fuse.c:388-436 | an unlink that returns an error has changed nothing if and only if its path was not one with a trailing slash to a file that held something; that file it has emptied, its name kept |
| Calls.CreateAnswers | idkfs_fuse.c:326-340 | create answers its path's error; ENOSPC, changing nothing, when no inode is free or the directory has 128 entries; else the number of the first free inode, made an empty file with one link, its entry added, and no other inode or byte touched |
| Calls.MkdirAnswers | idkfs_fuse.c:342-353 | mkdir answers its path's error, ENOSPC when no inode is free, and else 0; with room the first free inode becomes a directory holding "." and "..", the parent gets its entry and one link, nine blocks go, and nothing else is touched |
| Calls.UnlinkAnswers | idkfs_fuse.c:388-436 | unlink answers its path's error, EISDIR leaving a directory alone, ENOTDIR behind a trailing slash, and else 0 with the entry closed up, the inode's record zeroed, its blocks free and no other inode or byte touched, with either fill |
| Calls.TruncateAnswers | idkfs_fuse.c:355-363 | truncate answers its path's error, or 0 with exactly that one size changed |
| Calls.ReadAfterTruncate | idkfs_fuse.c:355-363 | after a file is cut to n every read gives what it gave before, cut to what lies below n |
| Calls.TruncateUndone | idkfs_fuse.c:355-363 | cutting drops nothing: setting the old size again gives back the volume as it was |
| Calls.WriteAnswers | idkfs_fuse.c:316-324 | write answers EBADF for a handle past the table, the length of its data when there is room, and -1 otherwise |
| FileSystem.Idkfs.MapBlock | idkfs_core.c:196-224 | the in-place mapping leaves exactly the volume and result of the mapping function |
| FileSystem.Idkfs.Read | idkfs_core.c:226-251 | the read loop returns exactly what the reading function gives |
| FileSystem.Idkfs.Write | idkfs_core.c:253-287 | the write loop leaves exactly the volume and result of the writing function, and keeps ownership and block counts |
| FileSystem.Idkfs.FreeBlocks | idkfs_fuse.c:404-430 | the freeing loops leave exactly the released volume, with either fill |
| FileSystem.Idkfs.CreateCall | idkfs_fuse.c:326-340 | the create call in place, keeping the invariant |
| FileSystem.Idkfs.MkdirCall | idkfs_fuse.c:342-353 | the mkdir call in place, keeping the invariant if and only if there is room for the directory |
| FileSystem.Idkfs.UnlinkCall | idkfs_fuse.c:388-436 | the unlink call in place, for every path, keeping the invariant if and only if no zero-filled pointer block is released |
| FileSystem.Idkfs.TruncateCall | idkfs_fuse.c:355-363 | the truncate call in place, keeping the invariant if and only if no directory is resized |
| FileSystem.Idkfs.Resolve | idkfs_fuse.c:150-176 | the token loop reaches exactly the inode or error of the walk |
| FileSystem.Idkfs.constructor | idkfs_core.c:401-448 | mkfs in place establishes the invariant |
| Crc.ByteStep | idkfs_core.c:120-121 | one table lookup is eight turns of the bit-at-a-time register, by linearity of the shift |
| Crc.Checksum.Sum | idkfs_core.c:106-123 | the table-driven loop, with its lazy table, computes the reflected CRC of section 8 of RFC 1952 of every byte string |
| Crc.CheckValue | idkfs_core.c:106-123 | the CRC of "123456789" is 0xCBF43926 |
| Crc.BurstDetected | idkfs_core.c:106-123 | two inputs of one length that differ only within 32 consecutive bits have different CRCs |
| BlockMap.FillChainMeans | idkfs_blk.c:51-75 | a chain exists if and only if the block is below 12 + 512 + ... + 512^6; every index is below 512 and the mixed-radix sum gives the block back |
| BlockMap.FillChainOnto | idkfs_blk.c:51-75 | every well-formed level and chain is the chain of exactly one block |
| BlockMap.OrderPreserved | idkfs_blk.c:51-75 | comparing level and chain lexicographically is comparing logical blocks |
| BlockMap.FillChainInto | idkfs_blk.c:51-75 | the nested loops in 64-bit arithmetic produce exactly that level and chain |
| BlockMap.GuardSoundIff | idkfs_blk.c:92-102 | of any non-empty image the size test keeps a pointer-block read inside if and only if the block is not the last of the address space, for which it passes and the read leaves the image |
| BlockMap.ResolveLogical | idkfs_blk.c:104-127 | the walk in place computes the resolving function, whatever the file's data words are |
| BlockMap.ResolveDirect | idkfs_blk.c:77-112 | blocks 0 to 11 are the first words of the inode's block, and none where that is not in the image |
| BlockMap.ResolveTraces | idkfs_blk.c:77-127 | a block of level L is found from word 11 + L of the inode's block through one word of one block a level, picked by the base-512 digits of its number, and none where a block on the way is not in the image |
| BlockMap.ResolveCovers | idkfs_blk.c:51-127 | every number from 12 below 12 + 512 + ... + 512^6 is a level's first one plus such digits; from there on there is no block |
| BlockMap.HeldOnceIff | idkfs_blk.c:77-127 | no two places hold pointers to one address if and only if no two pointers met on the way to any blocks, or found there, name one address |
| BlockMap.ResolveInjective | idkfs_blk.c:77-127 | so then two different logical blocks never resolve to one address, at any mix of levels |
| BlockMap.DistinctPointersNotEnough | idkfs_blk.c:92-102 | an image whose words all differ in which two logical blocks resolve alike: blocks 2^52 apart share an address |
| Journal.WriteSegmentsMeans | idkfs_blk.c:316-339 | a request writes the longest run of its segments that fits as one contiguous copy, succeeds if and only if that is all, and marks the journal dirty if and only if it wrote |
| Journal.ReadBack | idkfs_blk.c:316-339 | a successful write request is read back whole however either is split |
| Journal.WriteRequestMeans | idkfs_blk.c:291-343 | a write at sector s succeeds if and only if byte 512 s and all of its data lie in the image; its byte j is then byte 512 s + j of the map, every other byte and the file as before |
| Journal.FailedWriteMeans | idkfs_blk.c:291-343 | one that fails has written the longest run of its segments that fits, and nothing if it starts outside |
| Journal.ReadRequestMeans | idkfs_blk.c:291-343 | a read at sector s returns exactly the bytes from 512 s on, or fails when they are not all in the image |
| Journal.HeadMeans | idkfs_blk.c:153-162 | the generation is bytes 8 to 15; the record is in the block bytes 64 to 71 name, its words at bytes 0, 4, 8 and 16 |
| Journal.SameDataMeans | idkfs_blk.c:163-221 | images with the same data differ at most in bytes 8 to 15 and in the record from its byte 4 to 23 |
| Journal.FlushWrites | idkfs_blk.c:189-221 | a complete flush puts the map on the file with the old generation, state 1 and the next number pending, and leaves the map with that number in all three places and state 0 |
| Journal.PlainFlushWrites | idkfs_blk.c:189-221 | without a record it puts the map on the file as it is |
| Journal.LoadReads | idkfs_blk.c:163-179 | loading an image in state 1 takes the committed number and state 0; any other is taken as it is |
| Journal.ReplayIdempotent | idkfs_blk.c:163-179 | replaying twice is replaying once |
| Journal.CommitSettled | idkfs_blk.c:189-221 | a flush keeps the live generation equal to the committed one and the file at most one behind; a complete one advances by one, a torn one by none |
| Journal.RunAgrees | idkfs_blk.c:163-221 | over every run of writes, flushes that stop anywhere and reloads, journaled or not, while the dirty mark is clear the file agrees with the map on every byte but the generation and the record, and on those too where there is no record |
| Journal.LoadedRunAgrees | idkfs_blk.c:163-221 | so it is from the loading of any image on |
| Journal.RunSettled | idkfs_blk.c:163-221 | over every allowed run from a settled device the generation is the start plus the complete flushes less the reloads that lose one |
| Journal.GenerationBounds | idkfs_blk.c:163-221 | from a fresh image with c complete flushes and r reloads the generation lies between 1 + c - r and 1 + c, never below 1, and a reload finds it or the one before |
| Journal.TornFlush | idkfs_blk.c:206-209 | a torn flush leaves a cut: current below, as before above, still dirty |
| Journal.ReloadTakesBackOnlyTheNumber | idkfs_blk.c:163-221 | after a complete flush and a reload the generation is the one before and every data byte is the new one |
| Journal.UnjournaledRun | idkfs_blk.c:163-221 | on an image without the record's magic the generation never moves in any run |
| Journal.MkfsRecordNotFound | mkfs_idkfs.c:31-66 | the image mkfs_idkfs writes, every field of its superblock, record and snapshot table included, is such an image: its generation is 1 after every run |
| Journal.MkfsSuperMeans | mkfs_idkfs.c:31-45 | the superblock mkfs_idkfs writes, word by word |
| Journal.MkfsRestMeans | mkfs_idkfs.c:46-63 | behind it at byte 4088 the record and at byte 8184 the empty snapshot table, word by word |
| Journal.PaddedImageFresh | mkfs_idkfs.c:31-66 | with the superblock structure padded to a block the same image is a fresh journaled one |
| Journal.Driver.Flush | idkfs_blk.c:189-221 | the flush in place leaves exactly the committed state |
| Journal.Driver.HandleWrite | idkfs_blk.c:316-339 | the segment loop in place leaves exactly the requested state |
| Extents.AllocFsckIff | tools/idkfs_fsck.c:83-90 | one allocation keeps fsck's ordering if and only if its cursor has not caught up with the next |
| Extents.AllocAllPasses | idkfs_vfs.c:70-92 | a run hands out exactly the blocks each cursor passes, each once, and free_blocks plus allocations is constant |
| Extents.DistinctIff | idkfs_vfs.c:70-92 | the blocks of a run are pairwise distinct if and only if the numbers of blocks asked of the tiers, as far as blocks are free, run no tier into another |
| Extents.FsckMissesOverlap | tools/idkfs_fsck.c:83-90 | three allocations that hand one block out twice and still satisfy fsck |
| Extents.GetBlockMaps | idkfs_vfs.c:93-119 | no existing mapping is altered, and a mapping just made is found again if and only if an extent slot was free and it is not the last 64-bit block |
| Extents.HeldAnswer | idkfs_vfs.c:93-104 | a block some extent holds is answered as far into the first such extent's blocks as into its range, and nothing changes |
| Extents.NewAnswer | idkfs_vfs.c:105-119 | any other is unmapped unless to be made, ENOSPC when no block is free, and else the tier's cursor as it was, whether an extent is left for it or not; the first unused one records it |
| Extents.OnlyMatch | idkfs_vfs.c:96-103 | in disjoint extents the first match is the only one |
| Extents.GetBlockDisjoint | idkfs_vfs.c:93-119 | get_block keeps extents disjoint |
| Extents.RunSound | idkfs_vfs.c:70-119 | over every run of calls on all inodes without overlap, no two (inode, block) pairs map to one block and no mapping ever changes |
| Extents.RunsWithinZones | idkfs_vfs.c:70-119 | from empty inodes and a superblock fsck accepts, while no tier passes where the next began: blocks distinct and non-zero, mappings distinct, count conserved, fsck still content |
| Extents.AnswersAreBlocks | idkfs_vfs.c:70-119 | over a run the blocks answered as new are, in order, exactly the blocks handed out |
| Extents.AnswersWithinZones | idkfs_vfs.c:70-119 | within zones no block is answered as new twice and none is 0 or past the end, unrecorded ones included |
| Extents.FirstCallsOfMkfs | mkfs_idkfs.c:31-45 | on the volume mkfs_idkfs makes all of that holds of any first 262134 calls, whichever inodes and tiers they are for |
| Extents.SuperInfo.AllocTiered | idkfs_vfs.c:70-92 | the cursor update in place |
| Extents.InodeInfo.MapBlock | idkfs_vfs.c:93-119 | the two scans in place |
| Snapshots.CreateLists | daemon/src/main.rs:203-237 | a snapshot is added if and only if the table lists fewer than 46; it lists last, with the live generation and root and its name cut to 63 bytes and at a zero; no byte outside the table changes |
| Machine.LittleEndian | daemon/src/main.rs:119-133 | byte k of a word counts 256^k |
| Snapshots.ReadSuperMeans | daemon/src/main.rs:141-153 | the superblock is readable by its magic; generation, root and the table's block are at bytes 8, 16 and 64 |
| Snapshots.ReadTableMeans | daemon/src/main.rs:155-169 | a table is readable by both magics, in the block bytes 64 to 71 name, if all of it is in the image |
| Snapshots.EntryMeans | daemon/src/main.rs:179-201 | entry i is the 88 bytes from 16 + 88 i: identifier, generation and root at 0, 8 and 16, and the name from 24 up to a zero |
| Snapshots.NewTableMeans | daemon/src/main.rs:203-237 | creating writes the entry behind those listed, the count at byte 4 and the next identifier at byte 8, and no other byte |
| Snapshots.NewEntryBytes | daemon/src/main.rs:217-228 | the entry's bytes: identifier, 1, generation, root, and at most 63 of the name, the rest zero |
| Snapshots.Errors | daemon/src/main.rs:141-212 | the error of a list or create request from the magics and the count: full from 64 entries on, past the buffer from 46 |
| Snapshots.CreateOrderedIff | daemon/src/main.rs:203-237 | identifiers stay increasing and below the next one if and only if that was not 2^32 - 1 |
| Snapshots.OrderedForeverIff | daemon/src/main.rs:203-254 | identifiers stay increasing and below the next one over every run of requests if and only if enough are left below 2^32 for the entries still free |
| Snapshots.ReachableOrdered | daemon/src/main.rs:203-254 | in every table reached from an empty one, after any requests, identifiers increase and stay below the next one |
| Snapshots.RollbackRestores | daemon/src/main.rs:239-254 | after any further snapshots, rollbacks and changes, rolling back to a snapshot succeeds and touches only generation and root; it restores those captured if and only if its identifier found no other snapshot when it was made, or one that captured the same |
| Snapshots.ReachableRollback | daemon/src/main.rs:239-254 | from an empty table on, after any requests, every snapshot made can be gone back to after any further ones |
| Snapshots.SnapshotStore.NativeList | daemon/src/main.rs:179-201 | the listing loop returns exactly the listing function's result |
| Snapshots.SnapshotStore.NativeCreate | daemon/src/main.rs:203-237 | the field-by-field writes leave exactly the created image, and an error leaves the image alone |
| Snapshots.SnapshotStore.NativeRollback | daemon/src/main.rs:239-254 | the superblock rewrite leaves exactly the rolled-back image, and an error leaves it alone |
| MetaList.RoundTripIff | daemon/src/main.rs:85-117 | loading what was saved gives the list back if and only if no timestamp has a bar or newline and no description has a newline or ends in a carriage return |
| MetaList.FileStandsForList | daemon/src/main.rs:256-289 | over any run of create and delete requests, each reading and rewriting the file, the file stands for the list exactly |
| MetaList.SavedLines | daemon/src/main.rs:111-117 | a list is saved as a line an entry: the identifier's numeral without leading zeros, the time and the description, with bars between |
| MetaList.ParseLineMeans | daemon/src/main.rs:93-105 | a numeral below 2^32, perhaps behind a plus sign, a bar, text without one, a bar and any text is read as that entry |
| MetaList.OtherLines | daemon/src/main.rs:93-105 | any other line is dropped |
| MetaList.LinesMeans | daemon/src/main.rs:90-93 | a line loses its newline and a carriage return before it; a last line without one is taken as it is |
| MetaList.CreatedMeans | daemon/src/main.rs:256-267 | a create request's description is the name and, in brackets, "gen" and the generation's numeral |
| MetaList.WithoutMeans | daemon/src/main.rs:282-285 | a delete request keeps the other entries in their order |
| MetaList.MetaStore.LoadMeta | daemon/src/main.rs:85-109 | the line loop returns exactly the loaded list |
| MetaList.MetaStore.SaveMeta | daemon/src/main.rs:111-117 | the writing loop leaves exactly the saved text |

## Left out

- Timestamps, owners, modes, tiers, the second indirect pointer and the stored checksums of idkfs_core.c: set but never read by the modelled code; crc32 is modelled as a function.
- Flush and mount of a userspace image: the bitmap is two blocks long at block 1 and the inode table starts at block 2, so idkfs_flush overwrites half the bitmap (idkfs_core.c:387-389) and there is no round trip to prove; the rest of idkfs_persist.c repeats the calls of idkfs_fuse.c.
- FUSE, kernel, Lua, socket, mounting and argument glue, idkfs_snapper.c, the ctl client, tier rules by extension: calls into foreign code or easy members.
- The copy-on-write and Merkle-tree claims of the repository's README.md:7-8: the code overwrites blocks in place and verifies no checksum; Journal shows what its rollback does.
- Concurrency: a flush and a write request are each one step, although idkfs_blk.c takes no lock between them.
- Operations.UnlinkKeeps: the bitmap half is stated only without a zero-filled pointer block, where it is true; with one, Release.ReleaseExact says what is freed and ZeroFill.UnlinkConservesIff has the exact condition.
- Runs.UnlinkErrorIff: its failing paths end in a slash, which the kernel side of FUSE strips; they reach fuse_unlink only from a direct caller.
- Runs.ReachableInv: calls are guarded by what the kernel side of FUSE checks (a parent is a directory, a handle is of a file still there) and by the exact condition of Runs.StepKeepsIff; reads and writes through a handle of a deleted file are not modelled.
- FileIO.WriteFileRefines: under the exact condition of WriteExact.WriteRefinesIff, since without it the byte-map update is false; the invariant and the success of a write are exact for every offset and range in FileIO.WriteFileSound and WriteRoom.WriteSucceedsIff.
- Operations.TruncateKeepsIff: its failing input is a directory, which the kernel side of FUSE never passes to fuse_truncate; only a direct caller can.
- Bytes that a short read of a directory leaves unset on the stack are taken as 0 (idkfs_core.c:296, :312, :326).
- A name is a sequence of non-zero bytes; name_len is its length modulo 256 as in idkfs_core.c:301.
- Journal.RunAgrees: while the superblocks of map and file place the record alike and inside the image, which the driver never checks.
- Journal.GenerationBounds: requests may rewrite the generation and the transaction record only with what they hold, a torn flush stops at a 512-byte sector, and fewer than 2^64 - 1 flushes complete.
- Journal.Driver.Flush: kernel_write's answer is a parameter, and the transaction record is taken to lie inside the image as the driver assumes unchecked; idkfs_rollback, which nothing calls, is not modelled.
- BlockMap.ResolveLogical: none of the pointers followed names the last block of the address space (BlockMap.GuardSoundIff), whose read would leave the image.
- The superblock layouts of idkfs_kfs.h, mkfs_idkfs.c and the daemon disagree about offsets (idkfs_kfs.h:28-43, daemon/src/main.rs:58); each model uses the offsets of its own source.
- Snapshots.CreateLists: a name is its bytes; from_utf8_lossy of a name cut inside a character is not modelled. Deleting edits only list.txt, as in the source (daemon/src/main.rs:282-289).
- Memory exhaustion and I/O errors other than short reads, short writes and failed flushes.
