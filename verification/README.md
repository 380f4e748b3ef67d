# A model of a FAT-style virtual disk

The system is a small teaching file system kept in memory. It has 1024 blocks of
1024 bytes each. An allocation table (FAT) holds one 16-bit entry per block: -1
marks a free block, 0 marks the end of a chain, and any other value is the next
block of a file or directory. `format` does the following:

- writes a volume label into block 0;
- stores the table in blocks 1-2;
- puts an empty root directory in block 3.

A directory block holds a two-int header and three entry slots. Each slot has
`isdir`, `unused`, `firstblock` and `name`.

Paths are split on `/` (`parse_path`). `mymkdir` walks the segments and creates
any that are missing. Segments are looked up with `dir_index`, a scan of the
whole disk, not relative to the directory reached so far. `mychdir` jumps to
what that scan finds for the last segment. `myrmdir` frees the entry in the
parent that the removed directory's `..` slot names.

`myfopen` opens a file in one of three modes:

- `r` and `w` on an existing file start at its first block (`w` does not truncate);
- `a` on an existing file follows the chain to its last block and stops at the first zero byte;
- `w` and `a` on a missing name create a one-block file.

`myfgetc` and `myfputc` move a byte cursor along a file's chain. `myfputc`
claims a new block when it writes past the end of the last one.

The model is functional. The disk is an immutable value
`Disk(blocks, fat, rootDir, currentDir)`. A block has three possible readings:
raw bytes, a table block, or a directory record. Every C operation is a pure
function from the disk (and, for byte I/O, a cursor) to a new disk.

The C code has undefined behaviour on some paths, for example:

- indexing block or table entry -1;
- overflowing the fixed-size path buffers;
- reading an uninitialised directory name;
- a full directory, where next_free_dir_entry returns a block number that
  add_dir and add_file then use as a slot index.

On such a path the operation returns `Undefined(hazard)` rather than an
invented result, except in the cases listed under "## Left out". Paths the
code handles, such as a missing name or a path that is too long, are
modelled as the code handles them.

Files:

- `fs_types.dfy`: constants and types.
- `block_store.dfy`: readings of a block and `writeblock`.
- `fat.dfy`: allocation, the table's copy in blocks 1-2, and chains.
- `directory.dfy`: directory lookups and the single-directory edits.
- `paths.dfy`: tokenizing and rebuilding paths.
- `format.dfy`: `format`.
- `dir_ops.dfy`: mkdir, chdir and rmdir.
- `files.dfy`: open, the byte reader and writer, and block counting.
- `streams.dfy`: the write-then-read round trip, and reading a whole chain or file to its end.
- `findings.dfy`: the two findings below.

## Model

| member | source | states |
|---|---|---|
| FsTypes.DirEntryCountOnCommonAbis | filesys.h:23 | A direntry_t of 280 bytes (LP64) or 276 bytes (ILP32) leaves room for exactly 3 slots after the two-int header. |
| FsTypes.TableFillsReservedBlocks | filesys.h:20-22 | 512 table entries fit in a block, so the table takes blocks 1-2 and the root directory is block 3. |
| BlockStore.InitDir | filesys.c:82-99 | A fresh directory record has its flag set, next entry 0, and every slot free and not a directory. |
| BlockStore.AsData | filesys.c:74-79 | Reading a block as data gives BLOCKSIZE bytes, and a data block's own bytes. |
| BlockStore.AsDir | filesys.c:74-79 | Reading a block as a directory gives a well-formed record: a directory block's own record, and for any other block a record that is not a directory and has no free slot. |
| BlockStore.WriteBlock | filesys.c:57-71 | After writeblock, the written block reads back as written, and no other block, table entry or directory index changes. |
| BlockStore.WriteThenRead | filesys.c:57-79 | A record or data block that is written and then read back in the same way is returned unchanged. |
| Fat.FreeCountHasFree | filesys.c:627-637 | The count of free entries is positive exactly when next_free_fat can find one. |
| Fat.NextFreeFat | filesys.c:627-637 | Returns -1 exactly when no entry is free. Otherwise it returns the lowest free entry (every lower entry is in use) and marks only that entry end-of-chain. |
| Fat.CopyFat | filesys.c:611-624 | After copyFAT, entry j of the table is stored in block 1 + j/512 at slot j%512, and every other block is untouched. |
| Fat.MirrorKept | filesys.c:611-624 | A stored table stays a faithful copy under any change that leaves the table and blocks 1-2 alone. |
| Fat.ChainAcyclic | filesys.c:340-343 | A chain that ends has no repeated block. |
| Fat.ChainFitsDisk | filesys.c:340-343 | A chain that ends has fewer links than there are blocks. |
| Fat.ChainTail | filesys.c:340-343 | The block that following the links reaches has an end-of-chain entry and is the last block of the chain. |
| Fat.BlockCount | filesys.c:595-601 | The count is the number of blocks on the chain: the chain has exactly count-1 links. |
| Fat.Follow | filesys.c:340-343 | When the follower answers, the chain is well formed and the answer is its tail. |
| Fat.FollowDecides | filesys.c:340-343 | With MAXBLOCKS steps, following succeeds exactly on chains that end without meeting a free entry. |
| Directory.DirLookup | filesys.c:854-880 | Scanning blocks upward from a start block, finds nothing exactly when no block from there on holds the name in use. Otherwise it finds the lowest such block, and in it the last in-use slot with that name. |
| Directory.DirIndex | filesys.c:854-880 | Returns -1 exactly when no directory block holds an in-use entry with that name. Otherwise it returns the first block of the last matching slot in the lowest block that has one (the inner loop has no break, so later slots overwrite earlier ones). |
| Directory.FileIndex | filesys.c:573-584 | Returns -1 exactly when the current directory has no in-use entry with that name. Otherwise it returns the first matching slot's first block. |
| Directory.NextFreeDirEntry | filesys.c:914-934 | Returns the lowest free slot of a record that has one. |
| Directory.AddFile | filesys.c:655-677 | Writes the entry into the lowest free slot of the target record. The other slots, all other blocks and the table are unchanged. |
| Directory.AddFileThenFind | filesys.c:655-677 | After a file entry is added under a name the current directory lacks, file_index returns that entry's first block. |
| Directory.AddDir | filesys.c:817-851 | The new directory gets the lowest free block, marked end-of-chain. That block holds a record whose slot 0 is ".." pointing at the parent. The parent gains an in-use directory entry in its lowest free slot. |
| Directory.DeleteFile | filesys.c:559-570 | Marks the first slot whose name matches unused and frees its first block in the table. With no match, nothing changes. |
| Directory.DeleteFileHides | filesys.c:559-584 | In a directory without duplicate in-use names, a deleted name is no longer found by file_index. |
| Directory.DeleteDir | filesys.c:1008-1023 | Marks the first in-use directory entry with that name unused and frees its block. Every other block is unchanged, including the removed directory's own record. |
| Paths.ParsePath | filesys.c:754-769 | The segments are non-empty, slash-free pieces of the path. |
| Paths.ParsePathKeepsText | filesys.c:754-769 | Concatenating the segments gives the path with every '/' removed. |
| Paths.SegmentCountBound | filesys.c:754-769 | A path of length n has at most (n+1)/2 segments. |
| Paths.SkipSlash | filesys.c:754-769 | A leading '/' yields no token, so leading and repeated slashes are skipped. |
| Paths.SegmentThenSlash | filesys.c:754-769 | A non-empty, slash-free run followed by '/' or by the end of the path becomes one whole segment. Together with SkipSlash and the empty path giving no segments, this fixes the tokens of every path. |
| Paths.ParseJoinAbs | filesys.c:208-216 | Rebuilding "/s0/s1/..." from segments and tokenizing it again gives the segments back. |
| Paths.PathDirNo | filesys.c:901-909 | Counting rows up to the first empty one gives exactly the number of segments, because the table is zero-filled and no segment is empty. |
| Paths.DirectoryPartSplits | filesys.c:199-235 | The corrected directory part, tokenized, followed by the file name gives the path's segments: the file name is not passed to mkdir. |
| Format.Format | filesys.c:128-169 | After format: the table is valid and mirrored in blocks 1-2, block 0 holds the label, block 3 holds an empty root, and root and current directory are 3. Blocks from 4 up are unchanged. |
| Format.FormatIdempotent | filesys.c:128-169 | Formatting twice gives the same disk as formatting once. |
| Format.FormatLayout | filesys.c:141-146 | Blocks 0, 1-2 and 3 form three chains that end, and the first allocation after format is block 4. |
| Format.FormatBlankSound | filesys.c:128-169 | Formatting a zeroed disk gives a sound state (every directory record is allocated) in which dir_index finds no name. |
| DirOps.MkDirWalk | filesys.c:709-743 | The per-segment loop of mymkdir keeps the root and only claims free table entries; the current index may become -1 after a failed lookup. |
| DirOps.MkDir | filesys.c:680-751 | Paths longer than MAXPATHLENGTH change nothing. On success the current directory is restored, and the table only changes by claiming free entries. |
| DirOps.MkDirExisting | filesys.c:680-751 | When every segment is already found, mkdir changes nothing. |
| DirOps.MkDirSound | filesys.c:680-751 | mkdir keeps every directory record allocated, and afterwards dir_index finds every segment of a path that was not refused as too long. |
| DirOps.MkDirIdempotent | filesys.c:680-751 | In a sound state, a second mkdir of the same path changes nothing. |
| DirOps.AddDirFinds | filesys.c:817-880 | After add_dir of a fresh name, dir_index finds it and leads to the lowest block that was free. |
| DirOps.MkDirNewName | filesys.c:817-880 | mkdir of one fresh name is exactly add_dir, and dir_index then finds the new block. |
| DirOps.ChDir | filesys.c:963-1005 | "/" moves to the root. A path with a segment that is not found changes nothing. Otherwise the new current directory is what dir_index finds for the last segment. Only the current directory can change. The result is undefined exactly when a path within MAXPATHLENGTH does not fit the MAXNAME buffer, or is not "/" and has no segments. |
| DirOps.ChDirIgnoresCurrent | filesys.c:963-1005 | Where chdir lands does not depend on the directory it starts from. |
| DirOps.MkDirThenChDir | filesys.c:680-1005 | After mkdir of a fresh name, chdir to it lands on the block mkdir allocated. |
| DirOps.RemoveFromParent | filesys.c:1008-1066 | From the parent found through slot 0 of the removed directory's record: with no in-use directory entry of that name, nothing changes. Otherwise the first such entry is marked unused, its first block's table entry becomes free, and no other block changes. |
| DirOps.RmDir | filesys.c:1026-1072 | Over-long paths change nothing. "/" moves to the root for good. A path with a segment that dir_index does not find changes nothing. Otherwise the last segment is removed from the parent named in its record's slot 0, and the current directory is kept. Undefined exactly when the path overflows the MAXNAME buffer or has no segments and is not "/". |
| DirOps.RmDirHides | filesys.c:1026-1072 | When the parent holds the name once as a directory, rmdir leaves no in-use directory entry of that name there and frees the removed directory's block. |
| DirOps.RmDirAfterAdd | filesys.c:1026-1072 | rmdir of a name add_dir has just entered is delete_dir in the directory add_dir ran in, because the new record's ".." names it. |
| DirOps.MkDirThenRmDir | filesys.c:680-1072 | rmdir after mkdir of a fresh name hides the name again and frees its block. The record stays on the disk, so the state is no longer sound. |
| Files.FirstZero | filesys.c:346-349 | The append offset is the first zero byte of the tail block, or BLOCKSIZE if there is none. |
| Files.Create | filesys.c:290-322 | Claims the lowest free block as a zeroed block with an end-of-chain entry, and stores the table. The cursor is at offset 0 of that block. Other blocks change only at the current directory. |
| Files.CreateDefined | filesys.c:290-322 | Creation is defined exactly when: a block is free; it is not the current directory's block; the current directory is not a table block; and the current directory has a free slot. |
| Files.CreateThenFind | filesys.c:290-322 | After creation, file_index finds the new name at the claimed block. |
| Files.OpenIn | filesys.c:238-403 | 'r' on a missing name gives NULL. 'r' and 'w' on an existing file leave the disk alone and start at its first block. 'a' succeeds exactly on a chain that ends, and starts at its tail's first zero byte. 'w' and 'a' on a new name create it, and the name then leads to the cursor's block. An unknown mode gives NULL. |
| Files.Open | filesys.c:180-235 | Over-long paths give NULL. A single segment opens in the current directory. The current directory is restored and the table only gains claimed entries. |
| Files.OpenNested | filesys.c:208-235 | For paths of two or more segments, mkdir runs on the directory part first. If the last directory segment is not found afterwards, the result is NULL or no file. Otherwise the file is opened in the directory dir_index finds for it, and the current directory is restored. |
| Files.FileBlockLength | filesys.c:595-601 | Defined exactly when the name is found and its chain ends. The result is the number of blocks on the chain. |
| Files.Getc | filesys.c:407-428 | Returns EOF exactly at the end of a block whose entry ends the chain, and then leaves the cursor alone. Otherwise it returns the byte just before the new offset, read from the disk. A free entry at a block's end is undefined. |
| Files.Advance | filesys.c:439-468 | Inside a block, only the byte at the offset changes. At the end of the last block, the lowest free block is linked after it; the cursor's buffer, and the block itself when it is not a table block, hold the byte at offset 0 and zeros elsewhere. At the end of another block, the cursor moves to offset 0 of the next block and the byte is dropped. |
| Files.Flush | filesys.c:470-475 | The cursor's block ends up holding the buffer, and its entry is no longer free. |
| Files.Putc | filesys.c:431-476 | A read-mode cursor gets status 1 and nothing changes. Otherwise the write is defined unless it reaches a free entry or a full disk at a block's end. After it, the cursor's block holds the buffer, and the table only gains claimed entries plus one link from the old block to a claimed block. |
| Files.PutcThenGetc | filesys.c:407-476 | Reading from where a write started returns the byte written and ends where the write ended. |
| Streams.PutcDefined | filesys.c:439-468 | A write at the end of a file succeeds exactly when it stays in its block or some table entry is free. |
| Streams.PutcFrame | filesys.c:431-476 | A successful write at the end of a file keeps the cursor at the end of the file. It leaves allocated blocks, their links and the bytes before the cursor alone. |
| Streams.WriteAllDefined | filesys.c:431-476 | A run of writes at the end of a file succeeds exactly when the free entries cover the blocks it fills. It then uses up exactly that many entries. |
| Streams.WriteThenReadBack | filesys.c:407-476 | Given enough free entries, any run of bytes written through an end-of-file cursor is written in full. It reads back unchanged from where writing began, across as many blocks as the writes added. |
| Streams.ReadRest | filesys.c:407-428 | From any offset of a chain that ends, reading the remaining count of bytes returns every remaining byte of every block, zeros included, and stops at the end of the last block of the chain. |
| Streams.ReadChain | filesys.c:407-428 | From offset 0 of a chain of k blocks, k times BLOCKSIZE reads return the data of every block in chain order, and the next read returns EOF. |
| Streams.ReadWholeFile | filesys.c:407-428 | A file opened with 'r' whose chain ends gives exactly file_block_length times BLOCKSIZE bytes, the concatenated data of its blocks, and then EOF. |
| Streams.CreateWriteRead | filesys.c:238-476 | Open a new name with 'w' where creation is possible and enough entries are free, write bytes, and open it again with 'r': every write succeeds and the reads return exactly the bytes written. |
| Findings.AsCChar | filesys.c:407-428 | The char a caller of myfgetc sees is in -128..127, and EOF is -1. |
| Findings.ByteFFLooksLikeEof | filesys.c:407-428 | A data byte 0xFF and end of file give the same char. |
| Findings.AsIntRoundTrip | filesys.c:407-428 | With an int result, decoding gives back every read outcome. |
| Findings.AsIntInjective | filesys.c:407-428 | The int result tells any two different read outcomes apart. |
| Findings.FileNameBecomesDirectory | filesys.c:208-216 | The path built as written and tokenized again holds every segment, the file name included. |
| Findings.OpenAFMakesDirectoryF | filesys.c:208-216 | For any two segments a and f, opening "a/f" as written asks mkdir for "/a/f", which tokenizes to both segments. The corrected split asks for "/a" only. |

## Left out

- I/O: writedisk, readdisk, every print routine and every printf are left out. They only show or persist the state.
- myremove, mylistdir, get_dir_name, myfclose, print_file and ls_current_dir are left out. Only the storage core is modelled, and myremove's single-segment branch hands delete_file an uninitialised block.
- Byte layout: table and directory blocks are kept as structured values. Read as bytes they give zeros. A block that is not a directory, read as a directory, gives an all-zero record (not a directory, three in-use slots named ""). The real byte images of these blocks are not modelled.
- Entry fields: modtime and entrylength are dropped. So is filelength, which the create path computes through file_block_length on a name not yet entered, so it reads the table at index -1.
- The cursor's first_block is set to the file's first block in every mode. The source sets it only on creation.
- init_block leaves a fresh directory entry's name and firstblock uninitialised. The model fixes them to "" and 0. delete_file compares names without checking the unused flag (filesys.c:562), so in the source it reads these uninitialised bytes. In the model, deleting "" on a freshly formatted root matches a free slot and frees table entry 0, the label block's.
- Files.Open: for two or more segments it passes the corrected directory part (every segment but the last) to mkdir, not the path as written (see Findings).
- Files.OpenNested: runs mkdir on the corrected directory part (every segment but the last), not on the path as written, which also makes the file name a directory (see Findings).
- DirOps.MkDirIdempotent: only for sound states. rmdir leaves the removed directory's record on the disk with a free table entry, and a later add_dir can then reuse that block while dir_index still reads the stale record (DirOps.MkDirThenRmDir).
- Streams.CreateWriteRead: assumes blocks 0-2 and the current directory's block are not free, and that the current directory is not a table block. Format sets these up. Without it, a new block could be linked as block 0 and read as end of chain.
- Signedness of char is taken to be signed (as on x86). On an unsigned-char platform the EOF comparison in callers never succeeds.
- Integer widths: table entries are 16-bit shorts in the source. Every value the model stores is in -1..1023, so the width never matters.

## Findings

| source | as written | input that shows it | evidently intended | confidence | as-written member | corrected member |
|---|---|---|---|---|---|---|
| filesys.c:407-428 | myfgetc returns `char`, and callers compare it with EOF (-1) | a file holding the byte 0xFF: on a signed-char platform, a loop reading until EOF stops there | return `int`: the byte as 0..255, or EOF | not executed | Findings.ByteFFLooksLikeEof | Findings.AsIntRoundTrip |
| filesys.c:208-216 | the path for mkdir appends a segment only `if(i < num_dirs)`, which always holds inside a loop that stops at num_dirs | opening "a/f" calls mkdir("/a/f"), which creates "f" as a directory; file_index then returns that directory's block as the file | append every segment but the last | not executed | Findings.FileNameBecomesDirectory | Paths.DirectoryPartSplits |
