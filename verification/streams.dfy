/**
  Byte streams over the cursor: a caller writing a run of bytes with myfputc
  and reading them back with myfgetc. The main result is that bytes written
  through a cursor extending a file read back unchanged, across as many
  blocks as the write needed.
*/
module Streams {
  import opened FsTypes
  import opened BlockStore
  import opened Fat
  import opened Directory
  import opened DirOps
  import opened Files

  /** The label and table blocks are never free, so allocation never hands
      them out and no new link can point at block 0 (which would read as the
      end of a chain). Formatting establishes this. */
  predicate Reserved(fat: seq<int>)
    requires |fat| == MAXBLOCKS
  {
    forall y :: 0 <= y <= FAT_BLOCKS ==> fat[y] != UNUSED
  }

  /** A cursor positioned at the end of a file's chain, whose block on the
      disk holds exactly its buffer. */
  predicate Writable(d: Disk, c: Cursor) {
    && ValidStore(d) && CursorOk(c) && c.mode != Read
    && Reserved(d.fat)
    && d.fat[c.blockNo] == ENDOFCHAIN && !(1 <= c.blockNo <= FAT_BLOCKS)
    && d.blocks[c.blockNo] == Data(c.buffer)
  }

  /** Write the bytes one after another, stopping at the first write whose
      behaviour is undefined. */
  function WriteAll(d: Disk, c: Cursor, bs: seq<Byte>): (r: Outcome<Put>)
    requires ValidStore(d) && CursorOk(c)
    decreases |bs|
    ensures r.Ok? ==> ValidStore(r.value.disk) && CursorOk(r.value.cursor)
    ensures r.Ok? ==> r.value.disk.currentDir == d.currentDir && r.value.disk.rootDir == d.rootDir
    ensures r.Ok? ==> r.value.cursor.mode == c.mode && r.value.cursor.firstBlock == c.firstBlock
  {
    if |bs| == 0 then
      Ok(Put(0, d, c))
    else
      match Putc(d, c, bs[0])
      case Undefined(h) => Undefined(h)
      case Ok(p) => WriteAll(p.disk, p.cursor, bs[1..])
  }

  /** The results of reading and the cursor after them. */
  datatype Reading = Reading(got: seq<GetResult>, cursor: Cursor)

  /** Read `n` times, stopping at the first read whose behaviour is undefined. */
  function ReadN(d: Disk, c: Cursor, n: nat): (r: Outcome<Reading>)
    requires ValidStore(d) && CursorOk(c)
    decreases n
    ensures r.Ok? ==> |r.value.got| == n && CursorOk(r.value.cursor)
  {
    if n == 0 then
      Ok(Reading([], c))
    else
      match Getc(d, c)
      case Undefined(h) => Undefined(h)
      case Ok(s) =>
        match ReadN(d, s.cursor, n - 1)
        case Undefined(h) => Undefined(h)
        case Ok(rest) => Ok(Reading([s.got] + rest.got, rest.cursor))
  }

  /** Each byte as a successful read. */
  function Gots(bs: seq<Byte>): (g: seq<GetResult>)
    ensures |g| == |bs| && forall i :: 0 <= i < |bs| ==> g[i] == Got(bs[i])
  {
    seq(|bs|, i requires 0 <= i < |bs| => Got(bs[i]))
  }

  /** What later writes through cursor `c` leave alone: every allocated block
      other than the cursor's keeps its contents and its link, and the
      cursor's block keeps the bytes before the cursor. */
  predicate Frozen(d: Disk, e: Disk, c: Cursor)
    requires ValidStore(d) && ValidStore(e) && CursorOk(c)
  {
    && (forall y :: 0 <= y < MAXBLOCKS && y != c.blockNo && d.fat[y] != UNUSED && !(1 <= y <= FAT_BLOCKS) ==>
          e.blocks[y] == d.blocks[y])
    && (forall y :: 0 <= y < MAXBLOCKS && y != c.blockNo && d.fat[y] != UNUSED ==> e.fat[y] == d.fat[y])
    && (forall i :: 0 <= i < c.pos && i < BLOCKSIZE ==> DataAt(e, c.blockNo)[i] == DataAt(d, c.blockNo)[i])
  }

  /** How one write moves a writable cursor: one byte on in the same block, or
      to offset 1 of a block that was free and is now linked after it. */
  predicate Moved(d: Disk, c: Cursor, e: Disk, n: Cursor)
    requires ValidStore(d) && ValidStore(e) && CursorOk(c) && CursorOk(n)
  {
    || (n.blockNo == c.blockNo && n.pos == c.pos + 1)
    || (&& n.blockNo != c.blockNo && d.fat[n.blockNo] == UNUSED
        && e.fat[c.blockNo] == n.blockNo && n.pos == 1)
  }

  /** New blocks a run of `n` writes from offset `pos` claims: one each time
      a write finds its block full. */
  function BlocksNeeded(pos: nat, n: nat): (k: nat)
    requires pos <= BLOCKSIZE
    decreases n
    ensures k <= n
    ensures pos + n <= BLOCKSIZE ==> k == 0
  {
    if n == 0 then 0
    else if pos >= BLOCKSIZE then 1 + BlocksNeeded(1, n - 1)
    else BlocksNeeded(pos + 1, n - 1)
  }

  /** One write through a writable cursor succeeds exactly when it stays in
      the block or a block is free. */
  lemma PutcDefined(d: Disk, c: Cursor, ch: Byte)
    requires Writable(d, c)
    ensures Putc(d, c, ch).Ok? <==> BlocksNeeded(c.pos, 1) <= FreeCount(d.fat)
  {
    FreeCountHasFree(d.fat);
  }

  /** A write that moves on to a new block uses up exactly one free entry;
      one that stays in the block uses none. */
  lemma PutcFreeCount(d: Disk, c: Cursor, ch: Byte)
    requires Writable(d, c) && Putc(d, c, ch).Ok?
    ensures FreeCount(Putc(d, c, ch).value.disk.fat) == FreeCount(d.fat) - BlocksNeeded(c.pos, 1)
  {
    if c.pos >= BLOCKSIZE {
      var b := Putc(d, c, ch).value.cursor.blockNo;
      FreeCountUpdate(d.fat, b, ENDOFCHAIN);
      FreeCountUpdate(d.fat[b := ENDOFCHAIN], c.blockNo, b);
    }
  }

  /** A successful write leaves the cursor writable, one byte on or at
      offset 1 of a new block. */
  lemma PutcStep(d: Disk, c: Cursor, ch: Byte)
    requires Writable(d, c) && Putc(d, c, ch).Ok?
    ensures var p := Putc(d, c, ch).value;
      && Writable(p.disk, p.cursor)
      && p.cursor.pos == (if c.pos >= BLOCKSIZE then 1 else c.pos + 1)
      && FreeCount(p.disk.fat) == FreeCount(d.fat) - BlocksNeeded(c.pos, 1)
  {
    PutcFreeCount(d, c, ch);
  }

  /** A successful write through a writable cursor leaves it writable,
      freezes what lies before it, and moves it one byte on. */
  lemma PutcFrame(d: Disk, c: Cursor, ch: Byte)
    requires Writable(d, c) && Putc(d, c, ch).Ok?
    ensures var p := Putc(d, c, ch).value;
      && Writable(p.disk, p.cursor) && Frozen(d, p.disk, c) && Moved(d, c, p.disk, p.cursor)
  {
    var p := Putc(d, c, ch).value;
    if c.pos >= BLOCKSIZE {
      var b := p.cursor.blockNo;
      assert d.fat[b] == UNUSED && b != c.blockNo;
      assert p.disk.blocks[c.blockNo] == d.blocks[c.blockNo];
    } else {
      forall i | 0 <= i < c.pos ensures DataAt(p.disk, c.blockNo)[i] == DataAt(d, c.blockNo)[i] {
        assert p.cursor.buffer[i] == c.buffer[i];
      }
    }
  }

  /** Freezing composes along two writes. */
  lemma FrozenTrans(d: Disk, c: Cursor, d1: Disk, c1: Cursor, e: Disk)
    requires Writable(d, c) && ValidStore(d1) && ValidStore(e) && CursorOk(c1)
    requires Frozen(d, d1, c) && Moved(d, c, d1, c1) && Frozen(d1, e, c1)
    ensures Frozen(d, e, c)
  {
    forall i | 0 <= i < c.pos && i < BLOCKSIZE
      ensures DataAt(e, c.blockNo)[i] == DataAt(d, c.blockNo)[i]
    {
      if c1.blockNo != c.blockNo {
        assert e.blocks[c.blockNo] == d1.blocks[c.blockNo];
      }
    }
  }

  /** The first write's share of a run's blocks, and the rest's. */
  lemma BlocksNeededStep(pos: nat, n: nat)
    requires pos <= BLOCKSIZE && n > 0
    ensures BlocksNeeded(pos, n) == BlocksNeeded(pos, 1) + BlocksNeeded(if pos >= BLOCKSIZE then 1 else pos + 1, n - 1)
  {
  }

  /** A run of writes is its first write followed by the rest of the run. */
  lemma WriteAllCons(d: Disk, c: Cursor, bs: seq<Byte>)
    requires ValidStore(d) && CursorOk(c) && |bs| > 0
    ensures Putc(d, c, bs[0]).Undefined? ==> WriteAll(d, c, bs).Undefined?
    ensures Putc(d, c, bs[0]).Ok? ==>
      var p := Putc(d, c, bs[0]).value;
      WriteAll(d, c, bs) == WriteAll(p.disk, p.cursor, bs[1..])
  {
  }

  /** A run of writes through a writable cursor succeeds exactly when enough
      blocks are free for it, and then uses up exactly the blocks it needed. */
  lemma {:induction false} WriteAllDefined(d: Disk, c: Cursor, bs: seq<Byte>)
    requires Writable(d, c)
    ensures WriteAll(d, c, bs).Ok? <==> BlocksNeeded(c.pos, |bs|) <= FreeCount(d.fat)
    ensures WriteAll(d, c, bs).Ok? ==>
      FreeCount(WriteAll(d, c, bs).value.disk.fat) == FreeCount(d.fat) - BlocksNeeded(c.pos, |bs|)
    decreases |bs|
  {
    if |bs| > 0 {
      PutcDefined(d, c, bs[0]);
      BlocksNeededStep(c.pos, |bs|);
      WriteAllCons(d, c, bs);
      if Putc(d, c, bs[0]).Ok? {
        PutcStep(d, c, bs[0]);
        var p := Putc(d, c, bs[0]).value;
        WriteAllDefined(p.disk, p.cursor, bs[1..]);
      }
    }
  }

  /** A successful run of writes leaves the cursor writable and freezes what
      lay before it. */
  lemma {:induction false} WriteAllFrame(d: Disk, c: Cursor, bs: seq<Byte>)
    requires Writable(d, c) && WriteAll(d, c, bs).Ok?
    ensures Writable(WriteAll(d, c, bs).value.disk, WriteAll(d, c, bs).value.cursor)
    ensures Frozen(d, WriteAll(d, c, bs).value.disk, c)
    decreases |bs|
  {
    if |bs| > 0 {
      var p := Putc(d, c, bs[0]).value;
      PutcFrame(d, c, bs[0]);
      WriteAllFrame(p.disk, p.cursor, bs[1..]);
      FrozenTrans(d, c, p.disk, p.cursor, WriteAll(d, c, bs).value.disk);
    }
  }

  /** After a run of writes starting with `bs[0]`, a read from where the run
      started returns `bs[0]` and stands where the first write left the
      writing cursor: the later writes leave that byte and that link alone. */
  lemma FirstReadSurvives(d: Disk, c: Cursor, bs: seq<Byte>, r: Cursor)
    requires Writable(d, c) && |bs| > 0 && WriteAll(d, c, bs).Ok?
    requires CursorOk(r) && r.pos == c.pos && r.blockNo == c.blockNo
    ensures Putc(d, c, bs[0]).Ok?
    ensures var e := WriteAll(d, c, bs).value.disk;
      var c1 := Putc(d, c, bs[0]).value.cursor;
      && Getc(e, r).Ok? && Getc(e, r).value.got == Got(bs[0])
      && Getc(e, r).value.cursor.pos == c1.pos && Getc(e, r).value.cursor.blockNo == c1.blockNo
  {
    var e := WriteAll(d, c, bs).value.disk;
    var p := Putc(d, c, bs[0]).value;
    PutcFrame(d, c, bs[0]);
    WriteAllFrame(p.disk, p.cursor, bs[1..]);
    var c1 := p.cursor;
    assert DataAt(e, c1.blockNo)[c1.pos - 1] == DataAt(p.disk, c1.blockNo)[c1.pos - 1] == bs[0];
    if c.pos >= BLOCKSIZE {
      assert e.fat[c.blockNo] == c1.blockNo;
    }
  }

  /** Bytes a successful run of writes put down read back unchanged from any
      cursor standing where the writing started, and the reading ends where
      the writing ended. */
  lemma {:induction false} ReadsMatchWrites(d: Disk, c: Cursor, bs: seq<Byte>, r: Cursor)
    requires Writable(d, c) && WriteAll(d, c, bs).Ok?
    requires CursorOk(r) && r.pos == c.pos && r.blockNo == c.blockNo
    ensures var w := WriteAll(d, c, bs).value;
      var rd := ReadN(w.disk, r, |bs|);
      && rd.Ok? && rd.value.got == Gots(bs)
      && rd.value.cursor.pos == w.cursor.pos && rd.value.cursor.blockNo == w.cursor.blockNo
    decreases |bs|
  {
    if |bs| > 0 {
      var e := WriteAll(d, c, bs).value.disk;
      FirstReadSurvives(d, c, bs, r);
      var p := Putc(d, c, bs[0]).value;
      PutcFrame(d, c, bs[0]);
      var s := Getc(e, r).value;
      ReadsMatchWrites(p.disk, p.cursor, bs[1..], s.cursor);
      assert [Got(bs[0])] + Gots(bs[1..]) == Gots(bs);
    }
  }

  /** Bytes written through a writable cursor, with enough free blocks for
      them, are all written and read back unchanged from any cursor standing
      where the writing started, however many blocks the write added. */
  lemma WriteThenReadBack(d: Disk, c: Cursor, bs: seq<Byte>, r: Cursor)
    requires Writable(d, c) && BlocksNeeded(c.pos, |bs|) <= FreeCount(d.fat)
    requires CursorOk(r) && r.pos == c.pos && r.blockNo == c.blockNo
    ensures WriteAll(d, c, bs).Ok?
    ensures var w := WriteAll(d, c, bs).value;
      var rd := ReadN(w.disk, r, |bs|);
      && rd.Ok? && rd.value.got == Gots(bs)
      && rd.value.cursor.pos == w.cursor.pos && rd.value.cursor.blockNo == w.cursor.blockNo
  {
    WriteAllDefined(d, c, bs);
    ReadsMatchWrites(d, c, bs, r);
  }

  /** Opening a name the current directory lacks with 'w' is creation. */
  lemma OpenNewIsCreate(d: Disk, name: string)
    requires Valid(d) && ValidName(name) && FileIndex(d, name) == -1
    ensures OpenIn(d, name, Some(Write)) == Create(d, name, Write)
  {
  }

  /** Opening a new name for writing, where creation is possible, gives a
      writable cursor on a block that was free, uses up one free entry, and
      the name leads to that block. */
  lemma CreateWritable(d: Disk, name: string)
    requires Valid(d) && ValidName(name) && FileIndex(d, name) == -1
    requires Reserved(d.fat) && d.fat[d.currentDir] != UNUSED && !(1 <= d.currentDir <= FAT_BLOCKS)
    requires FreeCount(d.fat) > 0 && HasFreeSlot(DirAt(d, d.currentDir))
    ensures OpenIn(d, name, Some(Write)).Ok?
    ensures var o := OpenIn(d, name, Some(Write)).value;
      && o.file.Some? && Writable(o.disk, o.file.value)
      && o.disk.currentDir == d.currentDir && o.disk.currentDir != o.file.value.blockNo
      && o.disk.fat[o.disk.currentDir] != UNUSED
      && FreeCount(o.disk.fat) == FreeCount(d.fat) - 1
      && FileIndex(o.disk, name) == o.file.value.blockNo
  {
    FreeCountHasFree(d.fat);
    OpenNewIsCreate(d, name);
    var b := NextFreeFat(d.fat).block;
    assert d.fat[b] == UNUSED && b != d.currentDir && !(1 <= b <= FAT_BLOCKS);
    assert Create(d, name, Write).Ok?;
    var o := Create(d, name, Write).value;
    assert o.file == Some(Cursor(0, Write, b, b, Zeros()));
    assert o.disk.fat == d.fat[b := ENDOFCHAIN];
    FreeCountUpdate(d.fat, b, ENDOFCHAIN);
  }

  /** Writes through a writable cursor on another block than the current
      directory's, which is allocated, leave every name lookup alone. */
  lemma WritesKeepLookups(d: Disk, c: Cursor, bs: seq<Byte>, name: string)
    requires Valid(d) && Writable(d, c) && WriteAll(d, c, bs).Ok?
    requires d.currentDir != c.blockNo && d.fat[d.currentDir] != UNUSED && !(1 <= d.currentDir <= FAT_BLOCKS)
    ensures Valid(WriteAll(d, c, bs).value.disk)
    ensures FileIndex(WriteAll(d, c, bs).value.disk, name) == FileIndex(d, name)
  {
    var e := WriteAll(d, c, bs).value.disk;
    WriteAllFrame(d, c, bs);
    assert e.blocks[d.currentDir] == d.blocks[d.currentDir];
  }

  /** Open a new name for writing, write a run of bytes, open the name again
      for reading: the reads return the bytes written. Besides the block the
      file starts in, the writes need one free block per block they fill. */
  lemma CreateWriteRead(d: Disk, name: string, bs: seq<Byte>)
    requires Valid(d) && ValidName(name) && FileIndex(d, name) == -1
    requires Reserved(d.fat) && d.fat[d.currentDir] != UNUSED && !(1 <= d.currentDir <= FAT_BLOCKS)
    requires HasFreeSlot(DirAt(d, d.currentDir)) && BlocksNeeded(0, |bs|) < FreeCount(d.fat)
    ensures OpenIn(d, name, Some(Write)).Ok?
    ensures var o := OpenIn(d, name, Some(Write)).value;
      && o.file.Some? && WriteAll(o.disk, o.file.value, bs).Ok?
      && var e := WriteAll(o.disk, o.file.value, bs).value.disk;
      var rd := OpenIn(e, name, Some(Read));
      && rd.Ok? && rd.value.file.Some?
      && rd.value.file.value.blockNo == o.file.value.blockNo
      && ReadN(e, rd.value.file.value, |bs|).Ok?
      && ReadN(e, rd.value.file.value, |bs|).value.got == Gots(bs)
  {
    CreateWritable(d, name);
    var o := OpenIn(d, name, Some(Write)).value;
    var c := o.file.value;
    WriteAllDefined(o.disk, c, bs);
    WritesKeepLookups(o.disk, c, bs, name);
    var e := WriteAll(o.disk, c, bs).value.disk;
    var r := OpenIn(e, name, Some(Read)).value.file.value;
    ReadsMatchWrites(o.disk, c, bs, r);
  }

  // ----- Reading a whole file ------------------------------------------------------

  /** The bytes of the blocks of a chain of `n` links from `b`, block after
      block. */
  function ChainData(d: Disk, b: int, n: nat): (bs: seq<Byte>)
    requires ValidStore(d) && ChainOfLength(d.fat, b, n)
    decreases n
    ensures |bs| == (n + 1) * BLOCKSIZE
  {
    if n == 0 then DataAt(d, b) else DataAt(d, b) + ChainData(d, d.fat[b], n - 1)
  }

  /** What is left to read from offset `pos` of block `b` on a chain of `n`
      more links: the rest of `b`, then every later block. */
  function RestData(d: Disk, b: int, pos: nat, n: nat): (bs: seq<Byte>)
    requires ValidStore(d) && ChainOfLength(d.fat, b, n) && pos <= BLOCKSIZE
    ensures |bs| == (BLOCKSIZE - pos) + n * BLOCKSIZE
  {
    DataAt(d, b)[pos..] + (if n == 0 then [] else ChainData(d, d.fat[b], n - 1))
  }

  /** Taking the element at `pos` off the front of a suffix. */
  lemma SuffixCons<T>(a: seq<T>, pos: nat, tail: seq<T>)
    requires pos < |a|
    ensures a[pos..] + tail == [a[pos]] + (a[pos + 1..] + tail)
  {
    assert a[pos..] == [a[pos]] + a[pos + 1..];
  }

  /** Inside a block, what is left is the byte at the offset, then the rest. */
  lemma RestInBlock(d: Disk, b: int, pos: nat, n: nat)
    requires ValidStore(d) && ChainOfLength(d.fat, b, n) && pos < BLOCKSIZE
    ensures RestData(d, b, pos, n) == [DataAt(d, b)[pos]] + RestData(d, b, pos + 1, n)
  {
    SuffixCons(DataAt(d, b), pos, if n == 0 then [] else ChainData(d, d.fat[b], n - 1));
  }

  /** A chain's data is what is left to read from offset 0 of its first block. */
  lemma ChainDataIsRest(d: Disk, b: int, n: nat)
    requires ValidStore(d) && ChainOfLength(d.fat, b, n)
    ensures ChainData(d, b, n) == RestData(d, b, 0, n)
  {
    assert DataAt(d, b)[0..] == DataAt(d, b);
  }

  /** At the end of a block, what is left is the next block's first byte, then
      the rest from its offset 1. */
  lemma RestAcrossBlocks(d: Disk, b: int, n: nat)
    requires ValidStore(d) && ChainOfLength(d.fat, b, n) && n > 0
    ensures RestData(d, b, BLOCKSIZE, n) == [DataAt(d, d.fat[b])[0]] + RestData(d, d.fat[b], 1, n - 1)
  {
    var next := d.fat[b];
    assert ChainOfLength(d.fat, next, n - 1);
    assert RestData(d, b, BLOCKSIZE, n) == ChainData(d, next, n - 1) by {
      assert DataAt(d, b)[BLOCKSIZE..] == [];
    }
    ChainDataIsRest(d, next, n - 1);
    RestInBlock(d, next, 0, n - 1);
  }

  /** One read inside a block returns the byte at the offset and moves one on. */
  lemma GetcInBlock(d: Disk, c: Cursor)
    requires ValidStore(d) && CursorOk(c) && c.pos < BLOCKSIZE
    ensures Getc(d, c).Ok?
    ensures var s := Getc(d, c).value;
      && s.got == Got(DataAt(d, c.blockNo)[c.pos])
      && s.cursor.blockNo == c.blockNo && s.cursor.pos == c.pos + 1
  {
  }

  /** One read at the end of a block that has a successor returns the
      successor's first byte and moves to its offset 1. */
  lemma GetcAcrossBlocks(d: Disk, c: Cursor)
    requires ValidStore(d) && CursorOk(c) && c.pos == BLOCKSIZE
    requires d.fat[c.blockNo] != UNUSED && d.fat[c.blockNo] != ENDOFCHAIN
    ensures Getc(d, c).Ok?
    ensures var s := Getc(d, c).value;
      && s.got == Got(DataAt(d, d.fat[c.blockNo])[0])
      && s.cursor.blockNo == d.fat[c.blockNo] && s.cursor.pos == 1
  {
  }

  /** A read of `x` followed by `k - 1` reads returning the run `rest` is `k`
      reads returning `x` and then `rest`, ending where the run ended. */
  lemma ReadNPrepend(d: Disk, c: Cursor, k: nat, x: Byte, rest: seq<Byte>)
    requires ValidStore(d) && CursorOk(c) && k > 0
    requires Getc(d, c).Ok? && Getc(d, c).value.got == Got(x)
    requires var r := ReadN(d, Getc(d, c).value.cursor, k - 1); r.Ok? && r.value.got == Gots(rest)
    ensures var r := ReadN(d, Getc(d, c).value.cursor, k - 1);
      ReadN(d, c, k) == Ok(Reading(Gots([x] + rest), r.value.cursor))
  {
    assert Gots([x] + rest) == [Got(x)] + Gots(rest);
  }

  /** What reading the rest of a chain from `c` returns: every remaining byte,
      ending at the end of a block whose entry ends the chain. */
  predicate ReadsRest(d: Disk, c: Cursor, n: nat)
    requires ValidStore(d) && CursorOk(c) && ChainOfLength(d.fat, c.blockNo, n)
  {
    var rd := ReadN(d, c, (BLOCKSIZE - c.pos) + n * BLOCKSIZE);
    && rd.Ok? && rd.value.got == Gots(RestData(d, c.blockNo, c.pos, n))
    && rd.value.cursor.pos == BLOCKSIZE
    && d.fat[rd.value.cursor.blockNo] == ENDOFCHAIN
  }

  /** Reading on from any cursor position of a chain that ends returns every
      remaining byte of every block, zeros included, and stops at the end of
      the chain's last block. */
  lemma {:induction false} ReadRest(d: Disk, c: Cursor, n: nat)
    requires ValidStore(d) && CursorOk(c) && ChainOfLength(d.fat, c.blockNo, n)
    ensures ReadsRest(d, c, n)
    decreases n, BLOCKSIZE - c.pos
  {
    var b := c.blockNo;
    var k := (BLOCKSIZE - c.pos) + n * BLOCKSIZE;
    if c.pos < BLOCKSIZE {
      GetcInBlock(d, c);
      var c1 := Getc(d, c).value.cursor;
      ReadRest(d, c1, n);
      assert k - 1 == (BLOCKSIZE - c1.pos) + n * BLOCKSIZE;
      ReadNPrepend(d, c, k, DataAt(d, b)[c.pos], RestData(d, b, c.pos + 1, n));
      RestInBlock(d, b, c.pos, n);
    } else if n > 0 {
      GetcAcrossBlocks(d, c);
      var c1 := Getc(d, c).value.cursor;
      ReadRest(d, c1, n - 1);
      assert k - 1 == (BLOCKSIZE - c1.pos) + (n - 1) * BLOCKSIZE;
      ReadNPrepend(d, c, k, DataAt(d, d.fat[b])[0], RestData(d, d.fat[b], 1, n - 1));
      RestAcrossBlocks(d, b, n);
    } else {
      assert RestData(d, b, c.pos, n) == [];
    }
  }

  /** Opening a name the current directory holds with 'r' gives a cursor at
      offset 0 of its first block, holding that block. */
  lemma OpenForRead(d: Disk, name: string)
    requires Valid(d) && ValidName(name) && FileIndex(d, name) != -1
    ensures var f := FileIndex(d, name);
      OpenIn(d, name, Some(Read)) == Ok(Opened(d, Some(Cursor(0, Read, f, f, DataAt(d, f)))))
  {
  }

  /** Reading `k` blocks' worth of bytes through `c` returns the data of
      every block of the chain from `f` in chain order, zeros included, and
      the next read returns EOF. */
  predicate ReadsWhole(d: Disk, c: Cursor, f: int, k: nat)
    requires ValidStore(d) && CursorOk(c) && k >= 1 && ChainOfLength(d.fat, f, k - 1)
  {
    var rd := ReadN(d, c, k * BLOCKSIZE);
    && rd.Ok? && rd.value.got == Gots(ChainData(d, f, k - 1))
    && Getc(d, rd.value.cursor) == Ok(Step(EndOfFile, rd.value.cursor))
  }

  /** Reading `k` blocks' worth of bytes from offset 0 of a chain of `k`
      blocks returns the data of every block in chain order; the next read
      returns EOF. */
  lemma ReadChain(d: Disk, f: int, k: nat)
    requires ValidStore(d) && k >= 1 && ChainOfLength(d.fat, f, k - 1)
    ensures ReadsWhole(d, Cursor(0, Read, f, f, DataAt(d, f)), f, k)
  {
    var c := Cursor(0, Read, f, f, DataAt(d, f));
    ReadRest(d, c, k - 1);
    ChainDataIsRest(d, f, k - 1);
    assert (BLOCKSIZE - 0) + (k - 1) * BLOCKSIZE == k * BLOCKSIZE;
  }

  /** Opening a file for reading and reading file_block_length blocks' worth
      of bytes returns the contents of every block of its chain, in chain
      order and zeros included; the next read returns EOF. */
  lemma ReadWholeFile(d: Disk, name: string)
    requires Valid(d) && ValidName(name) && FileBlockLength(d, name).Ok?
    ensures var o := OpenIn(d, name, Some(Read));
      && o.Ok? && o.value.file.Some?
      && ReadsWhole(d, o.value.file.value, FileIndex(d, name), FileBlockLength(d, name).value)
  {
    OpenForRead(d, name);
    ReadChain(d, FileIndex(d, name), FileBlockLength(d, name).value);
  }
}
