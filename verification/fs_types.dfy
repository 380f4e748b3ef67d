/**
  The on-disk vocabulary of the FAT-style virtual disk: its build-time
  constants, the three readings of a block, directory entries, the whole
  disk state and the open-file cursor.
*/
module FsTypes {

  // ----- Build-time constants ---------------------------------------------

  /** Number of blocks on the virtual disk. */
  const MAXBLOCKS: nat := 1024
  /** Bytes per block. */
  const BLOCKSIZE: nat := 1024
  /** Width of one allocation-table entry (a C `short`). */
  const FAT_ENTRY_BYTES: nat := 2
  /** Allocation-table entries that fit in one block. */
  const FATENTRYCOUNT: nat := BLOCKSIZE / FAT_ENTRY_BYTES
  /** Blocks the allocation table occupies, right after block 0. */
  const FAT_BLOCKS: nat := MAXBLOCKS / FATENTRYCOUNT
  /** Width of a C `int`, used by the two-field directory header. */
  const INT_BYTES: nat := 4
  /** Entry slots per directory record (3 on both ILP32 and LP64). */
  const DIRENTRYCOUNT: nat := 3
  /** Capacity of an entry's name buffer, terminator included. */
  const MAXNAME: nat := 256
  /** Longest path the length guards admit. */
  const MAXPATHLENGTH: nat := 1024
  /** Rows of the segment table the path tokenizer allocates. */
  const MAXSEGMENTS: nat := 200
  /** The root directory lives in the first block after the table. */
  const ROOT_BLOCK: nat := FAT_BLOCKS + 1

  /** Allocation-table value of a free block. */
  const UNUSED: int := -1
  /** Allocation-table value of the last block of a chain. */
  const ENDOFCHAIN: int := 0
  /** End-of-file value of the byte reader. */
  const EOF: int := -1

  /** Name written into block 0 by format. */
  const VOLUME_LABEL: string := "Dylans_Drive"

  type Byte = x: int | 0 <= x < 256

  datatype Option<T> = None | Some(value: T)

  /** The result of an operation that may hit a path the C code leaves
      undefined (an out-of-bounds index, an overflowing copy, an uninitialised
      read). Such paths are reported, not given a made-up result. */
  datatype Outcome<T> = Ok(value: T) | Undefined(hazard: string)

  // ----- Records ------------------------------------------------------------

  /** One slot of a directory record. A freed slot keeps its name and first
      block (a tombstone); only `unused` changes. */
  datatype Entry = Entry(isDir: bool, unused: bool, firstBlock: int, name: string)

  /** A directory record: the two-int header and its entry slots. */
  datatype DirRecord = DirRecord(isDir: bool, nextEntry: int, slots: seq<Entry>)

  /** A block, tagged with the reading it was last written under. */
  datatype Block =
    | Data(bytes: seq<Byte>)
    | Table(links: seq<int>)
    | Directory(record: DirRecord)

  /** The whole file-system state: the block array, the in-memory allocation
      table and the two directory indices the source keeps as globals. */
  datatype Disk = Disk(blocks: seq<Block>, fat: seq<int>, rootDir: int, currentDir: int)

  /** The open modes; any other first character of the mode string opens nothing. */
  datatype Mode = Read | Write | Append

  /** An open file: byte offset in the current block, mode, current chain
      block, first block of the file and a copy of the current block. */
  datatype Cursor = Cursor(pos: int, mode: Mode, blockNo: int, firstBlock: int, buffer: seq<Byte>)

  /** What one byte read yields. Kept apart from allocation-table values even
      though the source encodes end of file and a free block both as -1. */
  datatype GetResult = Got(b: Byte) | EndOfFile

  // ----- Names ----------------------------------------------------------------

  /** A name fits a MAXNAME-byte buffer with its terminator and contains no NUL. */
  predicate ValidName(name: string) {
    |name| < MAXNAME && '\0' !in name
  }

  // ----- Layout arithmetic ----------------------------------------------------

  /** Entry slots that fit in a block after the two-int header, for an entry
      record of `entryBytes` bytes. */
  function EntriesPerRecord(entryBytes: nat): (n: nat)
    requires entryBytes > 0
    ensures 2 * INT_BYTES + n * entryBytes <= BLOCKSIZE
    ensures 2 * INT_BYTES + (n + 1) * entryBytes > BLOCKSIZE
  {
    (BLOCKSIZE - 2 * INT_BYTES) / entryBytes
  }

  /** The entry record is 280 bytes under LP64 (8-byte time_t) and 276 under
      ILP32; both leave room for exactly DIRENTRYCOUNT slots. */
  lemma DirEntryCountOnCommonAbis()
    ensures EntriesPerRecord(280) == DIRENTRYCOUNT
    ensures EntriesPerRecord(276) == DIRENTRYCOUNT
  {
  }

  /** The allocation table fills its reserved blocks exactly, one entry per block. */
  lemma TableFillsReservedBlocks()
    ensures FATENTRYCOUNT == 512 && FAT_BLOCKS == 2 && ROOT_BLOCK == 3
    ensures FAT_BLOCKS * FATENTRYCOUNT == MAXBLOCKS
  {
  }
}
