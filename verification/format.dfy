/**
  Formatting: the volume label in block 0, the allocation table with its own
  chain in blocks 1..2, and an empty root directory in block 3. Blocks from 4
  up keep whatever they held.
*/
module Format {
  import opened FsTypes
  import opened BlockStore
  import opened Fat
  import opened Directory

  /** The bytes of VOLUME_LABEL in ASCII. */
  const LABEL_BYTES: seq<Byte> := [68, 121, 108, 97, 110, 115, 95, 68, 114, 105, 118, 101]

  /** Block 0 after formatting: the label, its terminator, then zeros. */
  function LabelBlock(): (b: seq<Byte>)
    ensures |b| == BLOCKSIZE && |VOLUME_LABEL| == |LABEL_BYTES| < BLOCKSIZE
    ensures forall i :: 0 <= i < |VOLUME_LABEL| ==> b[i] == VOLUME_LABEL[i] as int
    ensures forall i :: |VOLUME_LABEL| <= i < BLOCKSIZE ==> b[i] == 0
  {
    seq(BLOCKSIZE, i requires 0 <= i < BLOCKSIZE => if i < |LABEL_BYTES| then LABEL_BYTES[i] else 0)
  }

  /** The allocation table format builds: block 0 alone, the table's own chain
      1 -> 2, the root directory alone in 3, every other block free. */
  function FormatFat(): (fat: seq<int>)
    ensures |fat| == MAXBLOCKS
    ensures fat[0] == ENDOFCHAIN && fat[1] == 2 && fat[2] == ENDOFCHAIN && fat[ROOT_BLOCK] == ENDOFCHAIN
    ensures forall j :: ROOT_BLOCK < j < MAXBLOCKS ==> fat[j] == UNUSED
  {
    seq(MAXBLOCKS, j => if j == 1 then 2 else if j <= 3 then ENDOFCHAIN else UNUSED)
  }

  /** format: the table and both directory indices are overwritten, so only
      the blocks need to be in shape. Label block 0, build and store the table, write an empty root
      directory at ROOT_BLOCK and make it current. */
  function Format(d: Disk): (d': Disk)
    requires BlocksOk(d.blocks)
    ensures Valid(d') && Mirror(d')
    ensures d'.rootDir == ROOT_BLOCK && d'.currentDir == ROOT_BLOCK
    ensures d'.fat == FormatFat()
    ensures d'.blocks[0] == Data(LabelBlock())
    ensures d'.blocks[ROOT_BLOCK] == Directory(InitDir())
    ensures forall y :: ROOT_BLOCK < y < MAXBLOCKS ==> d'.blocks[y] == d.blocks[y]
  {
    TableFillsReservedBlocks();
    var labelled := Disk(d.blocks[0 := Data(LabelBlock())], FormatFat(), ROOT_BLOCK, ROOT_BLOCK);
    var stored := CopyFat(labelled);
    WriteBlock(stored, ROOT_BLOCK, Directory(InitDir()))
  }

  /** Formatting twice is formatting once. */
  lemma FormatIdempotent(d: Disk)
    requires BlocksOk(d.blocks)
    ensures Format(Format(d)) == Format(d)
  {
    var once := Format(d);
    var twice := Format(once);
    forall y | 0 <= y < MAXBLOCKS ensures twice.blocks[y] == once.blocks[y] {
      if 1 <= y <= FAT_BLOCKS {
        TableFillsReservedBlocks();
        assert StoredLink(twice.blocks, (y - 1) * FATENTRYCOUNT) == StoredLink(once.blocks, (y - 1) * FATENTRYCOUNT);
        TableBlocksDetermined(twice, once, y);
      }
    }
  }

  /** Two disks whose table blocks mirror the same table have equal table blocks. */
  lemma TableBlocksDetermined(a: Disk, b: Disk, y: int)
    requires ValidStore(a) && ValidStore(b) && Mirror(a) && Mirror(b) && a.fat == b.fat
    requires 1 <= y <= FAT_BLOCKS
    requires a.blocks[y].Table? && b.blocks[y].Table?
    ensures a.blocks[y] == b.blocks[y]
  {
    TableFillsReservedBlocks();
    var la := a.blocks[y].links;
    var lb := b.blocks[y].links;
    forall x | 0 <= x < FATENTRYCOUNT ensures la[x] == lb[x] {
      var j := (y - 1) * FATENTRYCOUNT + x;
      assert j / FATENTRYCOUNT == y - 1 && j % FATENTRYCOUNT == x;
      assert StoredLink(a.blocks, j) == Some(la[x]);
      assert StoredLink(b.blocks, j) == Some(lb[x]);
    }
  }

  /** After formatting the reserved blocks form three well-formed chains and
      the first allocation lands right after the root directory. */
  lemma FormatLayout(d: Disk)
    requires BlocksOk(d.blocks)
    ensures ChainOfLength(Format(d).fat, 0, 0)
    ensures ChainOfLength(Format(d).fat, 1, 1)
    ensures ChainOfLength(Format(d).fat, ROOT_BLOCK, 0)
    ensures NextFreeFat(Format(d).fat).block == ROOT_BLOCK + 1
  {
    var fat := Format(d).fat;
    assert ChainOfLength(fat, 2, 0);
    assert fat[ROOT_BLOCK + 1] == UNUSED;
  }

  /** The zero-initialised state the source starts from before formatting:
      every block zero bytes, every table entry zero. */
  function Blank(): (d: Disk)
    ensures BlocksOk(d.blocks)
    ensures forall y :: 0 <= y < MAXBLOCKS ==> d.blocks[y] == Data(Zeros())
  {
    Disk(seq(MAXBLOCKS, _ => Data(Zeros())), seq(MAXBLOCKS, _ => ENDOFCHAIN), 0, 0)
  }

  /** Formatting a blank disk gives a state in which every directory record is
      live in the table, and no name is reachable by the global directory scan. */
  lemma FormatBlankSound(name: string)
    ensures Sound(Format(Blank()))
    ensures NameAbsent(Format(Blank()).blocks, name)
  {
    var d := Format(Blank());
    TableFillsReservedBlocks();
    forall y | 0 <= y < MAXBLOCKS
      ensures !BlockHolds(d.blocks[y], name)
    {
      if y == ROOT_BLOCK {
        assert DirAt(d, y) == InitDir();
      }
    }
  }
}
