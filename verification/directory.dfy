/**
  Directory records: slot searches, the two name lookups (current directory
  only, and every directory block on the disk), insertion into the first free
  slot, and tombstone deletion.
*/
module Directory {
  import opened FsTypes
  import opened BlockStore
  import opened Fat

  // ----- Slot searches ---------------------------------------------------------

  /** The slot is in use and carries `name`. */
  predicate InUseNamed(e: Entry, name: string) {
    !e.unused && e.name == name
  }

  /** The four slot tests the source's scans use. */
  datatype SlotQuery =
    | FreeSlotQ                  // next_free_dir_entry
    | AnyNamed(name: string)     // delete_file: in use or not
    | LiveNamed(name: string)    // file_index, dir_index
    | LiveDirNamed(name: string) // delete_dir

  predicate Matches(e: Entry, q: SlotQuery) {
    match q
    case FreeSlotQ => e.unused
    case AnyNamed(n) => e.name == n
    case LiveNamed(n) => InUseNamed(e, n)
    case LiveDirNamed(n) => InUseNamed(e, n) && e.isDir
  }

  /** First index at or after `from` whose slot matches `p`. */
  function FirstWhere(s: seq<Entry>, p: SlotQuery, from: nat): (r: Option<nat>)
    requires from <= |s|
    decreases |s| - from
    ensures r.None? <==> forall j :: from <= j < |s| ==> !Matches(s[j], p)
    ensures r.Some? ==> from <= r.value < |s| && Matches(s[r.value], p)
    ensures r.Some? ==> forall j :: from <= j < r.value ==> !Matches(s[j], p)
  {
    if from == |s| then None
    else if Matches(s[from], p) then Some(from)
    else FirstWhere(s, p, from + 1)
  }

  /** Last index below `upto` whose slot matches `p`. */
  function LastWhere(s: seq<Entry>, p: SlotQuery, upto: nat): (r: Option<nat>)
    requires upto <= |s|
    decreases upto
    ensures r.None? <==> forall j :: 0 <= j < upto ==> !Matches(s[j], p)
    ensures r.Some? ==> r.value < upto && Matches(s[r.value], p)
    ensures r.Some? ==> forall j :: r.value < j < upto ==> !Matches(s[j], p)
  {
    if upto == 0 then None
    else if Matches(s[upto - 1], p) then Some(upto - 1)
    else LastWhere(s, p, upto - 1)
  }

  /** The record has an in-use slot named `name`. */
  predicate RecordHolds(r: DirRecord, name: string) {
    exists i :: 0 <= i < |r.slots| && InUseNamed(r.slots[i], name)
  }

  /** The block reads as a directory-marked record holding `name` in use. */
  predicate BlockHolds(b: Block, name: string)
    requires WellFormedBlock(b)
  {
    AsDir(b).isDir && RecordHolds(AsDir(b), name)
  }

  // ----- dir_index: search every directory block ---------------------------------

  /** Where a match was found: block index and slot index. */
  datatype Loc = Loc(block: nat, slot: nat)

  /** The scan of dir_index from block `from` upward: the lowest block marked as
      a directory that holds `name` in use, and within it the LAST matching slot
      (the inner loop keeps going after a match). */
  function DirLookup(blocks: seq<Block>, name: string, from: nat): (r: Option<Loc>)
    requires BlocksOk(blocks) && from <= MAXBLOCKS
    decreases MAXBLOCKS - from
    ensures r.None? <==> forall y :: from <= y < MAXBLOCKS ==> !BlockHolds(blocks[y], name)
    ensures r.Some? ==>
      && from <= r.value.block < MAXBLOCKS
      && BlockHolds(blocks[r.value.block], name)
      && (forall y :: from <= y < r.value.block ==> !BlockHolds(blocks[y], name))
      && r.value.slot < DIRENTRYCOUNT
      && InUseNamed(AsDir(blocks[r.value.block]).slots[r.value.slot], name)
      && (forall i :: r.value.slot < i < DIRENTRYCOUNT ==> !InUseNamed(AsDir(blocks[r.value.block]).slots[i], name))
  {
    if from == MAXBLOCKS then
      None
    else
      var rec := AsDir(blocks[from]);
      if !rec.isDir then
        DirLookup(blocks, name, from + 1)
      else
        match LastWhere(rec.slots, LiveNamed(name), DIRENTRYCOUNT)
        case Some(i) => Some(Loc(from, i))
        case None => DirLookup(blocks, name, from + 1)
  }

  /** No directory-marked block anywhere holds `name` in use. */
  predicate NameAbsent(blocks: seq<Block>, name: string)
    requires BlocksOk(blocks)
  {
    forall y :: 0 <= y < MAXBLOCKS ==> !BlockHolds(blocks[y], name)
  }

  /** dir_index: the first block of the entry DirLookup finds, or -1: the
      lowest directory block holding the name in use, and in it the last
      matching slot. It reads the blocks only, never the current directory. */
  function DirIndex(blocks: seq<Block>, name: string): (r: int)
    requires BlocksOk(blocks)
    ensures r == -1 <==> NameAbsent(blocks, name)
    ensures r != -1 ==> 0 <= r < MAXBLOCKS
    ensures r != -1 ==> exists y, i ::
      (&& 0 <= y < MAXBLOCKS && 0 <= i < DIRENTRYCOUNT
       && BlockHolds(blocks[y], name)
       && (forall z :: 0 <= z < y ==> !BlockHolds(blocks[z], name))
       && InUseNamed(AsDir(blocks[y]).slots[i], name)
       && (forall j :: i < j < DIRENTRYCOUNT ==> !InUseNamed(AsDir(blocks[y]).slots[j], name))
       && AsDir(blocks[y]).slots[i].firstBlock == r)
  {
    match DirLookup(blocks, name, 0)
    case None => -1
    case Some(l) => AsDir(blocks[l.block]).slots[l.slot].firstBlock
  }

  // ----- file_index: search the current directory --------------------------------

  /** file_index: the first block of the first in-use slot of the current
      directory named `name`, or -1. */
  function FileIndex(d: Disk, name: string): (r: int)
    requires Valid(d)
    ensures r == -1 <==> !RecordHolds(DirAt(d, d.currentDir), name)
    ensures r != -1 ==> 0 <= r < MAXBLOCKS
    ensures r != -1 ==> exists i ::
      (&& 0 <= i < DIRENTRYCOUNT
       && InUseNamed(DirAt(d, d.currentDir).slots[i], name)
       && DirAt(d, d.currentDir).slots[i].firstBlock == r
       && forall j :: 0 <= j < i ==> !InUseNamed(DirAt(d, d.currentDir).slots[j], name))
  {
    var slots := DirAt(d, d.currentDir).slots;
    match FirstWhere(slots, LiveNamed(name), 0)
    case None => -1
    case Some(i) => slots[i].firstBlock
  }

  // ----- The directory invariant ---------------------------------------------------

  /** Every block holding a directory record is marked as a directory and is
      live in the allocation table, so allocation never hands it out. */
  predicate Sound(d: Disk) {
    && ValidStore(d)
    && forall y :: 0 <= y < MAXBLOCKS && d.blocks[y].Directory? ==>
         d.blocks[y].record.isDir && d.fat[y] != UNUSED
  }

  // ----- Insertion ---------------------------------------------------------------

  /** next_free_dir_entry, when the record has a free slot: the lowest one. */
  function NextFreeDirEntry(r: DirRecord): (k: nat)
    requires WellFormedRecord(r) && HasFreeSlot(r)
    ensures k < DIRENTRYCOUNT && r.slots[k].unused
    ensures forall j :: 0 <= j < k ==> !r.slots[j].unused
  {
    FirstWhere(r.slots, FreeSlotQ, 0).value
  }

  /** The record with slot `k` replaced by `e`. */
  function PutSlot(r: DirRecord, k: nat, e: Entry): (r': DirRecord)
    requires WellFormedRecord(r) && k < DIRENTRYCOUNT && EntryOk(e)
    ensures WellFormedRecord(r')
  {
    r.(slots := r.slots[k := e])
  }

  /** add_file: write `e` into the first free slot of the record at block `y`.
      Only that slot of that block changes. */
  function AddFile(d: Disk, y: int, e: Entry): (d': Disk)
    requires Valid(d) && 0 <= y < MAXBLOCKS && EntryOk(e)
    requires HasFreeSlot(DirAt(d, y))
    ensures Valid(d') && d'.blocks[y].Directory?
    ensures var k := NextFreeDirEntry(DirAt(d, y));
      && DirAt(d', y).slots[k] == e
      && DirAt(d', y).isDir == DirAt(d, y).isDir
      && forall j :: 0 <= j < DIRENTRYCOUNT && j != k ==> DirAt(d', y).slots[j] == DirAt(d, y).slots[j]
    ensures forall z :: 0 <= z < MAXBLOCKS && z != y ==> d'.blocks[z] == d.blocks[z]
    ensures d'.fat == d.fat && d'.rootDir == d.rootDir && d'.currentDir == d.currentDir
  {
    var rec := DirAt(d, y);
    WriteBlock(d, y, Directory(PutSlot(rec, NextFreeDirEntry(rec), e)))
  }

  /** Inserting an in-use entry whose name the current directory lacks makes
      file_index find it. */
  lemma AddFileThenFind(d: Disk, e: Entry)
    requires Valid(d) && EntryOk(e) && !e.unused
    requires HasFreeSlot(DirAt(d, d.currentDir))
    requires FileIndex(d, e.name) == -1
    ensures FileIndex(AddFile(d, d.currentDir, e), e.name) == e.firstBlock
  {
    var d' := AddFile(d, d.currentDir, e);
    var k := NextFreeDirEntry(DirAt(d, d.currentDir));
    var slots := DirAt(d', d'.currentDir).slots;
    assert InUseNamed(slots[k], e.name);
    forall j | 0 <= j < DIRENTRYCOUNT && j != k
      ensures !InUseNamed(slots[j], e.name)
    {
      assert slots[j] == DirAt(d, d.currentDir).slots[j];
    }
  }

  /** The record a new directory starts with: its parent as ".." in slot 0. */
  function NewDirRecord(parent: int): (r: DirRecord)
    requires 0 <= parent < MAXBLOCKS
    ensures WellFormedRecord(r) && r.isDir
    ensures r.slots[0] == Entry(true, false, parent, "..")
    ensures forall i :: 1 <= i < DIRENTRYCOUNT ==> r.slots[i].unused
  {
    PutSlot(InitDir(), 0, Entry(true, false, parent, ".."))
  }

  /** add_dir: claim the lowest free block for a new directory record whose
      slot 0 points back to the current directory, and enter it under `name`
      in the first free slot of the current directory. The table copy in the
      reserved blocks is not rewritten. */
  function AddDir(d: Disk, name: string): (d': Disk)
    requires Valid(d) && ValidName(name)
    requires HasFreeSlot(DirAt(d, d.currentDir)) && HasFree(d.fat)
    ensures Valid(d')
    ensures var n := NextFreeFat(d.fat).block;
      && 0 <= n < MAXBLOCKS && d.fat[n] == UNUSED
      && (forall j :: 0 <= j < n ==> d.fat[j] != UNUSED)
      && d'.fat == d.fat[n := ENDOFCHAIN]
      && d'.blocks[n] == Directory(NewDirRecord(d.currentDir))
      && (n != d.currentDir ==>
            var k := NextFreeDirEntry(DirAt(d, d.currentDir));
            && d'.blocks[d.currentDir] == Directory(PutSlot(DirAt(d, d.currentDir), k, Entry(true, false, n, name))))
      && forall z :: 0 <= z < MAXBLOCKS && z != n && z != d.currentDir ==> d'.blocks[z] == d.blocks[z]
    ensures d'.rootDir == d.rootDir && d'.currentDir == d.currentDir
  {
    var parent := DirAt(d, d.currentDir);
    var k := NextFreeDirEntry(parent);
    var a := NextFreeFat(d.fat);
    var n := a.block;
    var d1 := WriteBlock(d.(fat := a.fat), d.currentDir, Directory(PutSlot(parent, k, Entry(true, false, n, name))));
    WriteBlock(d1, n, Directory(NewDirRecord(d.currentDir)))
  }

  // ----- Deletion -------------------------------------------------------------------

  /** delete_file: in the record `rec`, mark the first slot named `name` free
      (in use or not), free only the first block of its chain, and store the
      record at the current directory. Name and first block stay as a tombstone. */
  function DeleteFile(d: Disk, rec: DirRecord, name: string): (d': Disk)
    requires Valid(d) && WellFormedRecord(rec)
    ensures Valid(d')
    ensures FirstWhere(rec.slots, AnyNamed(name), 0).None? ==> d' == d
    ensures FirstWhere(rec.slots, AnyNamed(name), 0).Some? ==>
      var i := FirstWhere(rec.slots, AnyNamed(name), 0).value;
      var e := rec.slots[i];
      && d'.fat == d.fat[e.firstBlock := UNUSED]
      && d'.blocks[d.currentDir] == Directory(PutSlot(rec, i, e.(unused := true)))
      && (forall z :: 0 <= z < MAXBLOCKS && z != d.currentDir ==> d'.blocks[z] == d.blocks[z])
      && d'.rootDir == d.rootDir && d'.currentDir == d.currentDir
  {
    match FirstWhere(rec.slots, AnyNamed(name), 0)
    case None => d
    case Some(i) =>
      var e := rec.slots[i];
      WriteBlock(d.(fat := d.fat[e.firstBlock := UNUSED]), d.currentDir, Directory(PutSlot(rec, i, e.(unused := true))))
  }

  /** No in-use slot of the record shares its name with an earlier slot. */
  predicate NoShadowedNames(r: DirRecord) {
    forall i, j :: 0 <= j < i < |r.slots| && !r.slots[i].unused ==> r.slots[j].name != r.slots[i].name
  }

  /** After deletion from the current directory, file_index no longer finds the
      name, provided no in-use slot is shadowed by an earlier slot of the same
      name (a tombstone or a duplicate). */
  lemma DeleteFileHides(d: Disk, name: string)
    requires Valid(d) && NoShadowedNames(DirAt(d, d.currentDir))
    ensures FileIndex(DeleteFile(d, DirAt(d, d.currentDir), name), name) == -1
  {
    var rec := DirAt(d, d.currentDir);
    var d' := DeleteFile(d, rec, name);
    match FirstWhere(rec.slots, AnyNamed(name), 0)
    case None =>
      forall j | 0 <= j < DIRENTRYCOUNT ensures !InUseNamed(rec.slots[j], name) {
        assert !Matches(rec.slots[j], AnyNamed(name));
      }
    case Some(i) =>
      var slots := DirAt(d', d'.currentDir).slots;
      forall j | 0 <= j < DIRENTRYCOUNT ensures !InUseNamed(slots[j], name) {
        if j < i {
          assert !Matches(rec.slots[j], AnyNamed(name));
        } else if j > i {
          assert rec.slots[i].name == name;
        }
      }
  }

  /** delete_dir: in the current directory, mark the first in-use slot that is
      a directory named `name` free and free the first block it points to. */
  function DeleteDir(d: Disk, name: string): (d': Disk)
    requires Valid(d)
    ensures Valid(d')
    ensures var rec := DirAt(d, d.currentDir);
      var m := FirstWhere(rec.slots, LiveDirNamed(name), 0);
      && (m.None? ==> d' == d)
      && (m.Some? ==>
            var e := rec.slots[m.value];
            && d'.fat == d.fat[e.firstBlock := UNUSED]
            && d'.blocks[d.currentDir] == Directory(PutSlot(rec, m.value, e.(unused := true)))
            && (forall z :: 0 <= z < MAXBLOCKS && z != d.currentDir ==> d'.blocks[z] == d.blocks[z])
            && d'.rootDir == d.rootDir && d'.currentDir == d.currentDir)
  {
    var rec := DirAt(d, d.currentDir);
    match FirstWhere(rec.slots, LiveDirNamed(name), 0)
    case None => d
    case Some(i) =>
      var e := rec.slots[i];
      WriteBlock(d.(fat := d.fat[e.firstBlock := UNUSED]), d.currentDir, Directory(PutSlot(rec, i, e.(unused := true))))
  }
}
