/**
  Files: opening in the three modes, creating an empty file, counting a
  file's blocks, and the byte cursor that reads (myfgetc) and writes
  (myfputc) along a chain, extending it at the tail.
*/
module Files {
  import opened FsTypes
  import opened BlockStore
  import opened Fat
  import opened Directory
  import opened Paths
  import opened DirOps

  // ----- Opening -----------------------------------------------------------------------

  /** The mode myfopen dispatches on: the first character of the mode string. */
  function ModeOf(mode: string): Option<Mode> {
    if |mode| == 0 then None
    else if mode[0] == 'r' then Some(Read)
    else if mode[0] == 'w' then Some(Write)
    else if mode[0] == 'a' then Some(Append)
    else None
  }

  /** Index of the first zero byte at or after `from`, or BLOCKSIZE: where the
      append branch places the cursor in the tail block. */
  function FirstZero(buf: seq<Byte>, from: nat): (k: nat)
    requires |buf| == BLOCKSIZE && from <= BLOCKSIZE
    decreases BLOCKSIZE - from
    ensures from <= k <= BLOCKSIZE
    ensures forall i :: from <= i < k ==> buf[i] != 0
    ensures k < BLOCKSIZE ==> buf[k] == 0
  {
    if from == BLOCKSIZE || buf[from] == 0 then from else FirstZero(buf, from + 1)
  }

  /** The disk after an open and the cursor it returns (None for NULL). */
  datatype Opened = Opened(disk: Disk, file: Option<Cursor>)

  /** The first half of the create branch: claim the lowest free block, write
      a zeroed block there, and store the table (which rewrites blocks
      1..FAT_BLOCKS, even if the claimed block is one of them). */
  function ClaimZeroed(d: Disk): (d': Disk)
    requires ValidStore(d) && HasFree(d.fat)
    ensures var b := NextFreeFat(d.fat).block;
      && ValidStore(d') && Mirror(d')
      && (forall y :: 1 <= y <= FAT_BLOCKS ==> d'.blocks[y].Table?)
      && d'.fat == d.fat[b := ENDOFCHAIN]
      && (!(1 <= b <= FAT_BLOCKS) ==> d'.blocks[b] == Data(Zeros()))
      && (forall y :: 0 <= y < MAXBLOCKS && y != b && !(1 <= y <= FAT_BLOCKS) ==> d'.blocks[y] == d.blocks[y])
      && d'.currentDir == d.currentDir && d'.rootDir == d.rootDir
  {
    var a := NextFreeFat(d.fat);
    NextFreeFatKeepsLinks(d.fat);
    CopyFat(WriteBlock(d.(fat := a.fat), a.block, Data(Zeros())))
  }

  /** The create branch of myfopen ('w' or 'a' on a missing name): claim and
      zero the lowest free block, store the table, and enter the name in the
      first free slot of the current directory. */
  function Create(d: Disk, name: string, m: Mode): (r: Outcome<Opened>)
    requires Valid(d) && ValidName(name)
    ensures r.Ok? ==>
      var b := NextFreeFat(d.fat).block;
      && 0 <= b < MAXBLOCKS && d.fat[b] == UNUSED && b != d.currentDir
      && Valid(r.value.disk) && Mirror(r.value.disk)
      && r.value.disk.fat == d.fat[b := ENDOFCHAIN]
      && (!(1 <= b <= FAT_BLOCKS) ==> r.value.disk.blocks[b] == Data(Zeros()))
      && r.value.file == Some(Cursor(0, m, b, b, Zeros()))
      && DataAt(r.value.disk, b) == Zeros()
      && r.value.disk.currentDir == d.currentDir && r.value.disk.rootDir == d.rootDir
      && (forall y :: 0 <= y < MAXBLOCKS && y != b && y != d.currentDir && !(1 <= y <= FAT_BLOCKS) ==>
            r.value.disk.blocks[y] == d.blocks[y])
  {
    if !HasFree(d.fat) then
      Undefined("the new file's block is -1")
    else
      var b := NextFreeFat(d.fat).block;
      var d1 := ClaimZeroed(d);
      if !HasFreeSlot(DirAt(d1, d.currentDir)) then
        Undefined("next_free_dir_entry returns a block index that add_file uses as a slot index")
      else
        TableFillsReservedBlocks();
        var d2 := AddFile(d1, d.currentDir, Entry(false, false, b, name));
        MirrorKept(d1, d2);
        assert d1.blocks[d.currentDir] == d.blocks[d.currentDir];
        Ok(Opened(d2, Some(Cursor(0, m, b, b, Zeros()))))
  }

  /** Creation succeeds exactly when a block is free, the claimed block is not
      the current directory's, the current directory is not a table block, and
      it has a free slot. */
  lemma CreateDefined(d: Disk, name: string, m: Mode)
    requires Valid(d) && ValidName(name)
    ensures Create(d, name, m).Ok? <==>
      && HasFree(d.fat) && NextFreeFat(d.fat).block != d.currentDir
      && !(1 <= d.currentDir <= FAT_BLOCKS) && HasFreeSlot(DirAt(d, d.currentDir))
  {
    if HasFree(d.fat) {
      var b := NextFreeFat(d.fat).block;
      var c := d.currentDir;
      var d1 := ClaimZeroed(d);
      if c == b || 1 <= c <= FAT_BLOCKS {
        assert !d1.blocks[c].Directory?;
        assert !HasFreeSlot(DirAt(d1, c));
      } else {
        assert d1.blocks[c] == d.blocks[c];
      }
    }
  }

  /** A file created under a name the current directory lacks is found there
      afterwards, at the block the table handed out. */
  lemma CreateThenFind(d: Disk, name: string, m: Mode)
    requires Valid(d) && ValidName(name) && FileIndex(d, name) == -1
    requires Create(d, name, m).Ok?
    ensures FileIndex(Create(d, name, m).value.disk, name) == NextFreeFat(d.fat).block
  {
    var b := NextFreeFat(d.fat).block;
    var d1 := ClaimZeroed(d);
    assert d1.blocks[d.currentDir] == d.blocks[d.currentDir];
    AddFileThenFind(d1, Entry(false, false, b, name));
  }

  /** Opening a name in the current directory, after the path has been dealt
      with. 'r' and 'w' on an existing file start at its first block without
      truncating it; 'a' on an existing file follows the chain to its last
      block and stops at the first zero byte there; 'w' and 'a' on a missing
      name create it; 'r' on a missing name and an unknown mode give NULL. */
  function OpenIn(d: Disk, name: string, m: Option<Mode>): (r: Outcome<Opened>)
    requires Valid(d) && ValidName(name)
    ensures m.None? ==> r == Ok(Opened(d, None))
    ensures r.Ok? ==> Valid(r.value.disk)
    ensures r.Ok? ==> r.value.disk.currentDir == d.currentDir && r.value.disk.rootDir == d.rootDir
    ensures r.Ok? ==> AllocOnly(d.fat, r.value.disk.fat)
    ensures r.Ok? && r.value.file.Some? ==>
      var c := r.value.file.value;
      && CursorOk(c) && m == Some(c.mode)
      && c.buffer == DataAt(r.value.disk, c.blockNo)
    ensures m == Some(Read) ==>
      && r.Ok? && r.value.disk == d
      && (r.value.file.None? <==> FileIndex(d, name) == -1)
    ensures m.Some? && m.value != Read ==> r.Ok? ==> r.value.file.Some?
    ensures FileIndex(d, name) != -1 && m.Some? && m.value != Append ==>
      && r.Ok? && r.value.disk == d
      && r.value.file.value.pos == 0 && r.value.file.value.blockNo == FileIndex(d, name)
    ensures FileIndex(d, name) != -1 && m == Some(Append) ==>
      && (r.Ok? <==> WellFormedChain(d.fat, FileIndex(d, name)))
      && (r.Ok? ==>
            var c := r.value.file.value;
            && r.value.disk == d && c.blockNo == ChainTail(d.fat, FileIndex(d, name))
            && (forall i :: 0 <= i < c.pos ==> c.buffer[i] != 0)
            && (c.pos < BLOCKSIZE ==> c.buffer[c.pos] == 0))
    ensures FileIndex(d, name) == -1 && m.Some? && m.value != Read ==>
      && (r.Ok? <==>
            && HasFree(d.fat) && NextFreeFat(d.fat).block != d.currentDir
            && !(1 <= d.currentDir <= FAT_BLOCKS) && HasFreeSlot(DirAt(d, d.currentDir)))
      && (r.Ok? ==>
            var c := r.value.file.value;
            && c.pos == 0 && c.buffer == Zeros() && d.fat[c.blockNo] == UNUSED
            && FileIndex(r.value.disk, name) == c.blockNo)
  {
    var f := FileIndex(d, name);
    match m
    case None => Ok(Opened(d, None))
    case Some(Read) =>
      if f == -1 then Ok(Opened(d, None)) else Ok(Opened(d, Some(Cursor(0, Read, f, f, DataAt(d, f)))))
    case Some(Write) =>
      if f == -1 then
        CreateDefined(d, name, Write);
        var o := Create(d, name, Write);
        if o.Ok? then CreateThenFind(d, name, Write); o else o
      else
        Ok(Opened(d, Some(Cursor(0, Write, f, f, DataAt(d, f)))))
    case Some(Append) =>
      if f == -1 then
        CreateDefined(d, name, Append);
        var o := Create(d, name, Append);
        if o.Ok? then CreateThenFind(d, name, Append); o else o
      else
        FollowDecides(d.fat, f);
        match Follow(d.fat, f, MAXBLOCKS)
        case None => Undefined("the chain reaches a free entry, or never ends")
        case Some(t) =>
          var buf := DataAt(d, t);
          Ok(Opened(d, Some(Cursor(FirstZero(buf, 0), Append, t, f, buf))))
  }

  /** Open `name` in directory `p`, then make `home` the current directory. */
  function OpenAt(d: Disk, p: int, name: string, m: Option<Mode>, home: int): (r: Outcome<Opened>)
    requires Valid(d) && 0 <= p < MAXBLOCKS && ValidName(name) && 0 <= home < MAXBLOCKS
    ensures r.Ok? ==> Valid(r.value.disk)
    ensures r.Ok? ==> r.value.disk.currentDir == home && r.value.disk.rootDir == d.rootDir
    ensures r.Ok? ==> AllocOnly(d.fat, r.value.disk.fat)
    ensures r.Ok? && r.value.file.Some? ==>
      var c := r.value.file.value;
      && CursorOk(c) && m == Some(c.mode)
      && c.buffer == DataAt(r.value.disk, c.blockNo)
  {
    var o := OpenIn(d.(currentDir := p), name, m);
    if o.Undefined? then Undefined(o.hazard)
    else Ok(Opened(o.value.disk.(currentDir := home), o.value.file))
  }

  /** The part of myfopen for paths of two or more segments: mkdir the
      directory part, make the global scan's answer for the second-to-last
      segment current, open the last segment there, restore the current
      directory. A failed scan leaves the source reading the record at -1. */
  function OpenNested(d: Disk, segs: seq<string>, m: Option<Mode>): (r: Outcome<Opened>)
    requires Valid(d) && Names(segs) && |segs| >= 2
    ensures r.Ok? ==> Valid(r.value.disk)
    ensures r.Ok? ==> r.value.disk.currentDir == d.currentDir && r.value.disk.rootDir == d.rootDir
    ensures r.Ok? ==> AllocOnly(d.fat, r.value.disk.fat)
    ensures r.Ok? && r.value.file.Some? ==>
      var c := r.value.file.value;
      && CursorOk(c) && m == Some(c.mode)
      && c.buffer == DataAt(r.value.disk, c.blockNo)
    ensures var made := MkDir(d, DirectoryPart(segs));
      && (made.Undefined? ==> r.Undefined?)
      && (made.Ok? ==>
            var d1 := made.value;
            var p := DirIndex(d1.blocks, segs[|segs| - 2]);
            && (p == -1 ==> (r.Ok? <==> m.None?) && (r.Ok? ==> r.value == Opened(d1, None)))
            && (p != -1 ==> r == OpenAt(d1, p, Last(segs), m, d.currentDir)))
  {
    match MkDir(d, DirectoryPart(segs))
    case Undefined(h) => Undefined(h)
    case Ok(d1) =>
      var p := DirIndex(d1.blocks, segs[|segs| - 2]);
      if p == -1 then
        if m.None? then Ok(Opened(d1, None))
        else Undefined("file_index reads the directory record at index -1")
      else
        var o := OpenAt(d1, p, Last(segs), m, d.currentDir);
        if o.Ok? then AllocOnlyTrans(d.fat, d1.fat, o.value.disk.fat); o else o
  }

  /** myfopen. Over-long paths give NULL. The segments are counted as
      get_path_dir_no counts the rows of the tokenizer's table. A single
      segment is opened in the current directory, even after a leading '/'.
      With more segments the nested open above applies. */
  function Open(d: Disk, path: string, mode: string): (r: Outcome<Opened>)
    requires Valid(d) && '\0' !in path
    ensures |path| > MAXPATHLENGTH ==> r == Ok(Opened(d, None))
    ensures r.Ok? && |path| <= MAXPATHLENGTH ==> Tokenizable(path) && |ParsePath(path)| > 0
    ensures r.Ok? ==> Valid(r.value.disk)
    ensures r.Ok? ==> r.value.disk.currentDir == d.currentDir && r.value.disk.rootDir == d.rootDir
    ensures r.Ok? ==> AllocOnly(d.fat, r.value.disk.fat)
    ensures r.Ok? && r.value.file.Some? ==>
      var c := r.value.file.value;
      && CursorOk(c) && ModeOf(mode) == Some(c.mode)
      && c.buffer == DataAt(r.value.disk, c.blockNo)
    ensures Tokenizable(path) && |ParsePath(path)| == 1 && ValidName(ParsePath(path)[0]) ==>
      r == OpenIn(d, ParsePath(path)[0], ModeOf(mode))
  {
    if |path| > MAXPATHLENGTH then
      Ok(Opened(d, None))
    else if !Tokenizable(path) then
      Undefined("parse_path overflows its buffers")
    else
      var segs := ParsePath(path);
      var count := PathDirNo(path);
      NamesOfPath(path);
      if count == 0 then
        Undefined("dir_index reads the uninitialised directory name")
      else if count == 1 then
        OpenIn(d, segs[0], ModeOf(mode))
      else
        OpenNested(d, segs, ModeOf(mode))
  }

  // ----- Counting blocks -------------------------------------------------------------

  /** file_block_length: the blocks on the chain of the file named in the
      current directory, counted by following links to an end-of-chain entry.
      A missing name, a free entry on the way or an endless chain leaves the
      source reading the table at -1 or looping. */
  function FileBlockLength(d: Disk, name: string): (r: Outcome<nat>)
    requires Valid(d)
    ensures r.Ok? <==> FileIndex(d, name) != -1 && WellFormedChain(d.fat, FileIndex(d, name))
    ensures r.Ok? ==> r.value >= 1 && ChainOfLength(d.fat, FileIndex(d, name), r.value - 1)
  {
    var f := FileIndex(d, name);
    if f == -1 then
      Undefined("the table is read at index -1")
    else
      FollowDecides(d.fat, f);
      if Follow(d.fat, f, MAXBLOCKS).None? then Undefined("the chain reaches a free entry, or never ends")
      else Ok(BlockCount(d.fat, f))
  }

  // ----- Reading a byte ----------------------------------------------------------------

  /** What one read yields and where the cursor stands afterwards. */
  datatype Step = Step(got: GetResult, cursor: Cursor)

  /** myfgetc. Inside the block the cursor's block is re-read from the disk and
      the byte at the offset returned. At the end of a block the file ends if
      the block's entry ends the chain; otherwise the next block is loaded and
      its first byte returned. A free entry there would be followed to block -1. */
  function Getc(d: Disk, c: Cursor): (r: Outcome<Step>)
    requires ValidStore(d) && CursorOk(c)
    ensures r.Ok? <==> !(c.pos >= BLOCKSIZE && d.fat[c.blockNo] == UNUSED)
    ensures r.Ok? ==>
      var n := r.value.cursor;
      && CursorOk(n) && n.mode == c.mode && n.firstBlock == c.firstBlock
    ensures r.Ok? && r.value.got.EndOfFile? <==> c.pos >= BLOCKSIZE && d.fat[c.blockNo] == ENDOFCHAIN
    ensures r.Ok? && r.value.got.EndOfFile? ==> r.value.cursor == c
    ensures r.Ok? && r.value.got.Got? ==>
      var n := r.value.cursor;
      && 1 <= n.pos && n.buffer == DataAt(d, n.blockNo)
      && r.value.got.b == n.buffer[n.pos - 1]
      && (if c.pos < BLOCKSIZE then n.blockNo == c.blockNo && n.pos == c.pos + 1
          else n.blockNo == d.fat[c.blockNo] && n.pos == 1)
  {
    if c.pos >= BLOCKSIZE then
      var next := d.fat[c.blockNo];
      if next == ENDOFCHAIN then Ok(Step(EndOfFile, c))
      else if next == UNUSED then Undefined("the next block is read at index -1")
      else
        var buf := DataAt(d, next);
        Ok(Step(Got(buf[0]), Cursor(1, c.mode, next, c.firstBlock, buf)))
    else
      var buf := DataAt(d, c.blockNo);
      Ok(Step(Got(buf[c.pos]), c.(pos := c.pos + 1, buffer := buf)))
  }

  // ----- Writing a byte ----------------------------------------------------------------

  /** What one write returns (0, or 1 for a rejected write), the disk after it
      and the cursor. */
  datatype Put = Put(status: int, disk: Disk, cursor: Cursor)

  /** The positioning half of myfputc. Inside the block the byte goes into the
      buffer. At the end of the last block a free block is claimed, linked
      after the cursor's block, written with the byte at offset 0, and the
      table stored. At the end of any other block the cursor moves to the next
      block and the byte is dropped. */
  function Advance(d: Disk, c: Cursor, ch: Byte): (r: Outcome<Put>)
    requires ValidStore(d) && CursorOk(c)
    ensures r.Ok? <==>
      !(c.pos >= BLOCKSIZE && (d.fat[c.blockNo] == UNUSED || (d.fat[c.blockNo] == ENDOFCHAIN && !HasFree(d.fat))))
    ensures r.Ok? ==>
      var n := r.value.cursor;
      && ValidStore(r.value.disk) && CursorOk(n) && n.mode == c.mode && n.firstBlock == c.firstBlock
      && r.value.disk.currentDir == d.currentDir && r.value.disk.rootDir == d.rootDir
    ensures r.Ok? && c.pos < BLOCKSIZE ==>
      && r.value.disk == d && r.value.cursor.blockNo == c.blockNo && r.value.cursor.pos == c.pos + 1
      && r.value.cursor.buffer[c.pos] == ch
      && forall i :: 0 <= i < BLOCKSIZE && i != c.pos ==> r.value.cursor.buffer[i] == c.buffer[i]
    ensures r.Ok? && c.pos >= BLOCKSIZE && d.fat[c.blockNo] == ENDOFCHAIN ==>
      var b := NextFreeFat(d.fat).block;
      var e := r.value.disk;
      && Mirror(e) && d.fat[b] == UNUSED
      && e.fat == d.fat[b := ENDOFCHAIN][c.blockNo := b]
      && r.value.cursor == Cursor(1, c.mode, b, c.firstBlock, Zeros()[0 := ch])
      && (!(1 <= b <= FAT_BLOCKS) ==> e.blocks[b] == Data(Zeros()[0 := ch]))
      && forall y :: 0 <= y < MAXBLOCKS && y != b && !(1 <= y <= FAT_BLOCKS) ==> e.blocks[y] == d.blocks[y]
    ensures r.Ok? && c.pos >= BLOCKSIZE && d.fat[c.blockNo] != ENDOFCHAIN ==>
      && r.value.disk == d
      && r.value.cursor == Cursor(0, c.mode, d.fat[c.blockNo], c.firstBlock, DataAt(d, d.fat[c.blockNo]))
  {
    if c.pos < BLOCKSIZE then
      Ok(Put(0, d, c.(buffer := c.buffer[c.pos := ch], pos := c.pos + 1)))
    else if d.fat[c.blockNo] == ENDOFCHAIN then
      var a := NextFreeFat(d.fat);
      if a.block == -1 then
        Undefined("the new block is written at index -1")
      else
        var b := a.block;
        var buf := Zeros()[0 := ch];
        var linked := a.fat[c.blockNo := b];
        var written := WriteBlock(d.(fat := linked), b, Data(buf));
        Ok(Put(0, CopyFat(written.(fat := linked[b := ENDOFCHAIN])), Cursor(1, c.mode, b, c.firstBlock, buf)))
    else if d.fat[c.blockNo] == UNUSED then
      Undefined("the next block is read at index -1")
    else
      var next := d.fat[c.blockNo];
      Ok(Put(0, d, Cursor(0, c.mode, next, c.firstBlock, DataAt(d, next))))
  }

  /** The closing half of myfputc: a cursor block whose entry is free has its
      buffer cleared, is marked end-of-chain and the table stored; then the
      buffer is written to the cursor's block. */
  function Flush(d: Disk, c: Cursor): (r: Put)
    requires ValidStore(d) && CursorOk(c)
    ensures ValidStore(r.disk) && CursorOk(r.cursor) && r.status == 0
    ensures r.disk.blocks[c.blockNo] == Data(r.cursor.buffer)
    ensures r.disk.fat[c.blockNo] != UNUSED
    ensures d.fat[c.blockNo] != UNUSED ==> r.cursor == c && r.disk.fat == d.fat
    ensures d.fat[c.blockNo] == UNUSED ==>
      && r.cursor == c.(buffer := Zeros()) && r.disk.fat == d.fat[c.blockNo := ENDOFCHAIN]
    ensures forall y :: 0 <= y < MAXBLOCKS && y != c.blockNo && !(1 <= y <= FAT_BLOCKS) ==> r.disk.blocks[y] == d.blocks[y]
    ensures r.disk.currentDir == d.currentDir && r.disk.rootDir == d.rootDir
    ensures Mirror(d) && !(1 <= c.blockNo <= FAT_BLOCKS) ==> Mirror(r.disk)
  {
    if d.fat[c.blockNo] == UNUSED then
      var c' := c.(buffer := Zeros());
      var stored := CopyFat(d.(fat := d.fat[c.blockNo := ENDOFCHAIN]));
      var e := WriteBlock(stored, c.blockNo, Data(c'.buffer));
      if !(1 <= c.blockNo <= FAT_BLOCKS) then MirrorKept(stored, e); Put(0, e, c')
      else Put(0, e, c')
    else
      var e := WriteBlock(d, c.blockNo, Data(c.buffer));
      if Mirror(d) && !(1 <= c.blockNo <= FAT_BLOCKS) then MirrorKept(d, e); Put(0, e, c)
      else Put(0, e, c)
  }

  /** myfputc: a cursor opened for reading rejects the write with status 1;
      otherwise position, then flush, and return 0. The block under the
      cursor afterwards holds exactly the cursor's buffer; the table only
      gains claimed entries and the link from the cursor's old block to a
      claimed one. */
  function Putc(d: Disk, c: Cursor, ch: Byte): (r: Outcome<Put>)
    requires ValidStore(d) && CursorOk(c)
    ensures c.mode == Read ==> r == Ok(Put(1, d, c))
    ensures c.mode != Read ==>
      (r.Ok? <==> !(c.pos >= BLOCKSIZE && (d.fat[c.blockNo] == UNUSED || (d.fat[c.blockNo] == ENDOFCHAIN && !HasFree(d.fat)))))
    ensures r.Ok? && c.mode != Read ==>
      var e := r.value.disk;
      var n := r.value.cursor;
      && r.value.status == 0 && ValidStore(e) && CursorOk(n)
      && n.mode == c.mode && n.firstBlock == c.firstBlock
      && e.currentDir == d.currentDir && e.rootDir == d.rootDir
      && e.blocks[n.blockNo] == Data(n.buffer) && e.fat[n.blockNo] != UNUSED
      && (forall j :: 0 <= j < MAXBLOCKS ==>
            || e.fat[j] == d.fat[j]
            || (d.fat[j] == UNUSED && e.fat[j] == ENDOFCHAIN)
            || (j == c.blockNo && d.fat[j] == ENDOFCHAIN && e.fat[j] == n.blockNo && d.fat[n.blockNo] == UNUSED))
      && (forall y :: 0 <= y < MAXBLOCKS && y != n.blockNo && !(1 <= y <= FAT_BLOCKS) ==> e.blocks[y] == d.blocks[y])
      && (Mirror(d) && !(1 <= n.blockNo <= FAT_BLOCKS) ==> Mirror(e))
    ensures r.Ok? && c.mode != Read && c.pos < BLOCKSIZE && d.fat[c.blockNo] != UNUSED ==>
      var n := r.value.cursor;
      && r.value.disk.fat == d.fat
      && n.blockNo == c.blockNo && n.pos == c.pos + 1 && n.buffer == c.buffer[c.pos := ch]
    ensures r.Ok? && c.mode != Read && c.pos >= BLOCKSIZE && d.fat[c.blockNo] == ENDOFCHAIN ==>
      var n := r.value.cursor;
      && n.blockNo == NextFreeFat(d.fat).block && n.pos == 1 && n.buffer == Zeros()[0 := ch]
      && r.value.disk.fat[c.blockNo] == n.blockNo && r.value.disk.fat[n.blockNo] == ENDOFCHAIN
      && r.value.disk.fat == d.fat[n.blockNo := ENDOFCHAIN][c.blockNo := n.blockNo]
  {
    if c.mode == Read then
      Ok(Put(1, d, c))
    else
      match Advance(d, c, ch)
      case Undefined(h) => Undefined(h)
      case Ok(p) => Ok(Flush(p.disk, p.cursor))
  }

  /** Reading from where a write started returns the byte written and ends
      where the write ended, when the write stayed in a live block or
      extended the chain (and block 0 is not free, so a new link cannot read
      as end of chain). */
  lemma PutcThenGetc(d: Disk, c: Cursor, ch: Byte)
    requires ValidStore(d) && CursorOk(c) && c.mode != Read && d.fat[0] != UNUSED
    requires || (c.pos < BLOCKSIZE && d.fat[c.blockNo] != UNUSED)
             || (c.pos >= BLOCKSIZE && d.fat[c.blockNo] == ENDOFCHAIN && HasFree(d.fat))
    ensures Putc(d, c, ch).Ok?
    ensures Getc(Putc(d, c, ch).value.disk, c) == Ok(Step(Got(ch), Putc(d, c, ch).value.cursor))
  {
    var r := Putc(d, c, ch).value;
    if c.pos >= BLOCKSIZE {
      var b := NextFreeFat(d.fat).block;
      assert r.disk.fat[c.blockNo] == b && b != 0;
    }
  }
}
