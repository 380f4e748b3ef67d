/**
  The block store: fresh blocks, the typed readings of a stored block, block
  writes, and the structural well-formedness every operation preserves.
*/
module BlockStore {
  import opened FsTypes

  // ----- Fresh blocks (init_block) ------------------------------------------

  /** A zero-filled data payload. */
  function Zeros(): (z: seq<Byte>)
    ensures |z| == BLOCKSIZE
    ensures forall i :: 0 <= i < |z| ==> z[i] == 0
  {
    seq(BLOCKSIZE, _ => 0)
  }

  /** The slot init_block writes: a free file slot. The source leaves the name
      and first block uninitialised; the model fixes them to "" and 0. */
  function FreeSlot(): Entry {
    Entry(false, true, 0, "")
  }

  /** A fresh directory record: marked as a directory, every slot free. */
  function InitDir(): (r: DirRecord)
    ensures r.isDir && r.nextEntry == 0 && |r.slots| == DIRENTRYCOUNT
    ensures forall i :: 0 <= i < |r.slots| ==> r.slots[i].unused && !r.slots[i].isDir
  {
    DirRecord(true, 0, seq(DIRENTRYCOUNT, _ => FreeSlot()))
  }

  /** What an all-zero block decodes to when read as a directory record: the
      header flag is FALSE and every slot reads as in use, named "". */
  function ZeroRecord(): (r: DirRecord)
    ensures !r.isDir && |r.slots| == DIRENTRYCOUNT
    ensures forall i :: 0 <= i < |r.slots| ==> !r.slots[i].unused && r.slots[i].name == ""
  {
    DirRecord(false, 0, seq(DIRENTRYCOUNT, _ => Entry(false, false, 0, "")))
  }

  // ----- Readings of a block (readblock) ------------------------------------

  /** A block read as raw bytes. The byte image of a table or directory record
      is not modelled: such a block reads as zeros. */
  function AsData(b: Block): (bytes: seq<Byte>)
    requires WellFormedBlock(b)
    ensures |bytes| == BLOCKSIZE
    ensures b.Data? ==> bytes == b.bytes
  {
    match b
    case Data(bs) => bs
    case _ => Zeros()
  }

  /** A block read as a directory record. A block not written as one decodes
      like an all-zero block. */
  function AsDir(b: Block): (r: DirRecord)
    requires WellFormedBlock(b)
    ensures WellFormedRecord(r)
    ensures b.Directory? ==> r == b.record
    ensures !b.Directory? ==> !r.isDir && !HasFreeSlot(r)
  {
    match b
    case Directory(rec) => rec
    case _ =>
      assert !ZeroRecord().slots[0].unused;
      ZeroRecord()
  }

  // ----- Well-formedness -------------------------------------------------------

  /** An entry's first block is a block index and its name fits its buffer. */
  predicate EntryOk(e: Entry) {
    0 <= e.firstBlock < MAXBLOCKS && ValidName(e.name)
  }

  predicate WellFormedRecord(r: DirRecord) {
    |r.slots| == DIRENTRYCOUNT && forall i :: 0 <= i < |r.slots| ==> EntryOk(r.slots[i])
  }

  /** Each reading has the size of one block. */
  predicate WellFormedBlock(b: Block) {
    match b
    case Data(bytes) => |bytes| == BLOCKSIZE
    case Table(links) => |links| == FATENTRYCOUNT
    case Directory(r) => WellFormedRecord(r)
  }

  /** Some slot of the record is free. */
  predicate HasFreeSlot(r: DirRecord) {
    exists i :: 0 <= i < |r.slots| && r.slots[i].unused
  }

  /** An allocation-table value: free, or a block index (0 doubling as end of chain). */
  predicate LinkOk(v: int) {
    v == UNUSED || 0 <= v < MAXBLOCKS
  }

  /** A full disk of well-formed blocks. */
  predicate BlocksOk(blocks: seq<Block>) {
    |blocks| == MAXBLOCKS && forall y :: 0 <= y < |blocks| ==> WellFormedBlock(blocks[y])
  }

  /** One table entry per block, each free or a block index. */
  predicate TableOk(fat: seq<int>) {
    |fat| == MAXBLOCKS && forall y :: 0 <= y < |fat| ==> LinkOk(fat[y])
  }

  /** Everything but the current directory is in shape. */
  predicate ValidStore(d: Disk) {
    && BlocksOk(d.blocks)
    && TableOk(d.fat)
    && 0 <= d.rootDir < MAXBLOCKS
  }

  /** A well-formed disk whose current directory is a block index. */
  predicate Valid(d: Disk) {
    ValidStore(d) && 0 <= d.currentDir < MAXBLOCKS
  }

  /** An open cursor's offset lies within its block and its buffer is one block. */
  predicate CursorOk(c: Cursor) {
    0 <= c.pos <= BLOCKSIZE && 0 <= c.blockNo < MAXBLOCKS && |c.buffer| == BLOCKSIZE
  }

  // ----- Block access --------------------------------------------------------

  /** Block `y` read as a directory record. */
  function DirAt(d: Disk, y: int): (r: DirRecord)
    requires ValidStore(d) && 0 <= y < MAXBLOCKS
    ensures WellFormedRecord(r)
  {
    AsDir(d.blocks[y])
  }

  /** Block `y` read as bytes. */
  function DataAt(d: Disk, y: int): (bytes: seq<Byte>)
    requires ValidStore(d) && 0 <= y < MAXBLOCKS
    ensures |bytes| == BLOCKSIZE
  {
    AsData(d.blocks[y])
  }

  /** writeblock: store `b` at index `y`. A later read of `y` sees `b`, every
      other block and the rest of the state are untouched. */
  function WriteBlock(d: Disk, y: int, b: Block): (d': Disk)
    requires ValidStore(d) && 0 <= y < MAXBLOCKS && WellFormedBlock(b)
    ensures ValidStore(d') && |d'.blocks| == |d.blocks|
    ensures d'.blocks[y] == b
    ensures forall z :: 0 <= z < |d.blocks| && z != y ==> d'.blocks[z] == d.blocks[z]
    ensures d'.fat == d.fat && d'.rootDir == d.rootDir && d'.currentDir == d.currentDir
  {
    d.(blocks := d.blocks[y := b])
  }

  /** Writing a record and reading it back as a record, or bytes and reading
      them back as bytes, returns what was written. */
  lemma WriteThenRead(d: Disk, y: int, b: Block)
    requires ValidStore(d) && 0 <= y < MAXBLOCKS && WellFormedBlock(b)
    ensures b.Directory? ==> DirAt(WriteBlock(d, y, b), y) == b.record
    ensures b.Data? ==> DataAt(WriteBlock(d, y, b), y) == b.bytes
  {
  }
}
