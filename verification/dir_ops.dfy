/**
  The path-level directory operations: mkdir (create every missing segment),
  chdir (jump to the last segment) and rmdir (free the last segment's entry in
  the parent its record names). Every segment is looked up with the global
  scan of dir_index, not relative to the directory reached so far.
*/
module DirOps {
  import opened FsTypes
  import opened BlockStore
  import opened Fat
  import opened Directory
  import opened Paths

  /** Every segment fits an entry's name buffer. */
  predicate Names(segs: seq<string>) {
    forall i :: 0 <= i < |segs| ==> ValidName(segs[i])
  }

  /** The segments of a tokenizable C string are valid entry names. */
  lemma NamesOfPath(p: string)
    requires Tokenizable(p) && '\0' !in p
    ensures Names(ParsePath(p))
  {
    var segs := ParsePath(p);
    forall i | 0 <= i < |segs| ensures ValidName(segs[i]) {
      assert forall j :: 0 <= j < |segs[i]| ==> segs[i][j] in p;
    }
  }

  /** The table only changed by claiming free entries as single-block chains. */
  predicate AllocOnly(a: seq<int>, b: seq<int>) {
    |a| == |b| && forall j :: 0 <= j < |a| ==> b[j] == a[j] || (a[j] == UNUSED && b[j] == ENDOFCHAIN)
  }

  /** Claiming free entries twice is claiming free entries. */
  lemma AllocOnlyTrans(a: seq<int>, b: seq<int>, c: seq<int>)
    requires AllocOnly(a, b) && AllocOnly(b, c)
    ensures AllocOnly(a, c)
  {
  }

  /** During the mkdir walk the current index may be -1: the result of a failed
      lookup, stored without a check. */
  predicate WalkState(d: Disk) {
    ValidStore(d) && -1 <= d.currentDir < MAXBLOCKS
  }

  /** Every segment is found by dir_index. */
  predicate AllPresent(d: Disk, segs: seq<string>)
    requires ValidStore(d)
  {
    forall i :: 0 <= i < |segs| ==> !NameAbsent(d.blocks, segs[i])
  }

  /** The loop of mymkdir: for each segment, create it in the current
      directory when the global scan does not find it, then move to whatever
      the global scan finds for it. The disk's current index is the walk's. */
  function MkDirWalk(d: Disk, segs: seq<string>): (r: Outcome<Disk>)
    requires WalkState(d) && Names(segs)
    decreases |segs|
    ensures r.Ok? ==> ValidStore(r.value) && -1 <= r.value.currentDir < MAXBLOCKS && r.value.rootDir == d.rootDir
    ensures r.Ok? ==> AllocOnly(d.fat, r.value.fat)
  {
    if |segs| == 0 then
      Ok(d)
    else
      var s := segs[0];
      if DirIndex(d.blocks, s) != -1 then
        MkDirWalk(d.(currentDir := DirIndex(d.blocks, s)), segs[1..])
      else if d.currentDir == -1 then
        Undefined("add_dir reads the directory record at index -1")
      else if !HasFreeSlot(DirAt(d, d.currentDir)) then
        Undefined("next_free_dir_entry returns a block index that add_dir uses as a slot index")
      else if !HasFree(d.fat) then
        Undefined("add_dir writes the new directory record to block -1")
      else
        var d1 := AddDir(d, s);
        MkDirWalk(d1.(currentDir := DirIndex(d1.blocks, s)), segs[1..])
  }

  /** mymkdir: paths longer than MAXPATHLENGTH are refused; an absolute path
      walks from the root, a relative one from the current directory; the
      current directory is restored afterwards. */
  function MkDir(d: Disk, path: string): (r: Outcome<Disk>)
    requires Valid(d) && '\0' !in path
    ensures |path| > MAXPATHLENGTH ==> r == Ok(d)
    ensures |path| <= MAXPATHLENGTH && r.Ok? ==> Tokenizable(path)
    ensures r.Ok? ==> ValidStore(r.value) && r.value.currentDir == d.currentDir && r.value.rootDir == d.rootDir
    ensures r.Ok? ==> AllocOnly(d.fat, r.value.fat)
  {
    if |path| > MAXPATHLENGTH then
      Ok(d)
    else if !Tokenizable(path) then
      Undefined("parse_path overflows its buffers")
    else
      NamesOfPath(path);
      var start := if |path| > 0 && path[0] == '/' then d.rootDir else d.currentDir;
      match MkDirWalk(d.(currentDir := start), ParsePath(path))
      case Ok(d') => Ok(d'.(currentDir := d.currentDir))
      case Undefined(h) => Undefined(h)
  }

  // ----- mkdir of existing paths -----------------------------------------------------

  /** A walk over segments that are all found creates nothing. */
  lemma {:induction false} WalkOverPresent(d: Disk, segs: seq<string>)
    requires WalkState(d) && Names(segs) && AllPresent(d, segs)
    ensures MkDirWalk(d, segs).Ok?
    ensures MkDirWalk(d, segs).value.(currentDir := d.currentDir) == d
    decreases |segs|
  {
    if |segs| > 0 {
      var d1 := d.(currentDir := DirIndex(d.blocks, segs[0]));
      assert AllPresent(d1, segs[1..]) by {
        forall i | 0 <= i < |segs| - 1 ensures DirIndex(d1.blocks, segs[1..][i]) != -1 {
          assert DirIndex(d1.blocks, segs[i + 1]) == DirIndex(d.blocks, segs[i + 1]);
        }
      }
      WalkOverPresent(d1, segs[1..]);
    }
  }

  /** mkdir of a path whose segments all exist changes nothing. */
  lemma MkDirExisting(d: Disk, path: string)
    requires Valid(d) && '\0' !in path && Tokenizable(path)
    requires AllPresent(d, ParsePath(path))
    ensures MkDir(d, path) == Ok(d)
  {
    NamesOfPath(path);
    var start := if |path| > 0 && path[0] == '/' then d.rootDir else d.currentDir;
    var d0 := d.(currentDir := start);
    assert AllPresent(d0, ParsePath(path));
    WalkOverPresent(d0, ParsePath(path));
  }

  // ----- The directory invariant across mkdir -----------------------------------------

  /** Every block that held a name in use still holds it. */
  ghost predicate HoldsKept(a: Disk, b: Disk)
    requires ValidStore(a) && ValidStore(b)
  {
    forall y, x :: 0 <= y < MAXBLOCKS && BlockHolds(a.blocks[y], x) ==> BlockHolds(b.blocks[y], x)
  }

  /** In a sound state add_dir keeps the state sound, never overwrites a block
      holding a name, and makes the current directory hold the new name. */
  lemma AddDirSound(d: Disk, s: string)
    requires Valid(d) && Sound(d) && ValidName(s)
    requires HasFreeSlot(DirAt(d, d.currentDir)) && HasFree(d.fat)
    ensures Sound(AddDir(d, s)) && HoldsKept(d, AddDir(d, s))
    ensures BlockHolds(AddDir(d, s).blocks[d.currentDir], s)
  {
    var d1 := AddDir(d, s);
    var n := NextFreeFat(d.fat).block;
    var c := d.currentDir;
    var parent := DirAt(d, c);
    var k := NextFreeDirEntry(parent);
    assert d.blocks[c].Directory?;
    assert n != c;
    assert d1.blocks[c] == Directory(PutSlot(parent, k, Entry(true, false, n, s)));
    assert InUseNamed(DirAt(d1, c).slots[k], s);
    forall y, x | 0 <= y < MAXBLOCKS && BlockHolds(d.blocks[y], x)
      ensures BlockHolds(d1.blocks[y], x)
    {
      if y == c {
        var i :| 0 <= i < DIRENTRYCOUNT && InUseNamed(parent.slots[i], x);
        assert DirAt(d1, c).slots[i] == parent.slots[i];
      }
    }
  }

  /** Keeping names held composes. */
  lemma HoldsKeptTrans(a: Disk, b: Disk, c: Disk)
    requires ValidStore(a) && ValidStore(b) && ValidStore(c)
    requires HoldsKept(a, b) && HoldsKept(b, c)
    ensures HoldsKept(a, c)
  {
  }

  /** A name held by some block stays reachable across a change that keeps
      names held. */
  lemma PresentKept(a: Disk, b: Disk, s: string)
    requires ValidStore(a) && ValidStore(b) && HoldsKept(a, b) && !NameAbsent(a.blocks, s)
    ensures !NameAbsent(b.blocks, s)
  {
    var y :| 0 <= y < MAXBLOCKS && BlockHolds(a.blocks[y], s);
    assert BlockHolds(b.blocks[y], s);
  }

  /** Moving the current index keeps a sound state sound and every name held. */
  lemma MoveSound(d: Disk, c: int)
    requires WalkState(d) && Sound(d) && -1 <= c < MAXBLOCKS
    ensures WalkState(d.(currentDir := c)) && Sound(d.(currentDir := c))
    ensures HoldsKept(d, d.(currentDir := c))
  {
  }

  /** One step of a sound walk: the state after the first segment is sound,
      keeps every name held, holds the segment, and the rest of the walk starts
      from it. */
  lemma WalkStepSound(d: Disk, segs: seq<string>) returns (d1: Disk)
    requires WalkState(d) && Names(segs) && Sound(d) && |segs| > 0
    requires MkDirWalk(d, segs).Ok?
    ensures WalkState(d1) && Sound(d1) && HoldsKept(d, d1)
    ensures !NameAbsent(d1.blocks, segs[0])
    ensures MkDirWalk(d, segs) == MkDirWalk(d1, segs[1..])
  {
    var s := segs[0];
    if DirIndex(d.blocks, s) != -1 {
      d1 := d.(currentDir := DirIndex(d.blocks, s));
      MoveSound(d, d1.currentDir);
    } else {
      var added := AddDir(d, s);
      AddDirSound(d, s);
      d1 := added.(currentDir := DirIndex(added.blocks, s));
      MoveSound(added, d1.currentDir);
      HoldsKeptTrans(d, added, d1);
      assert BlockHolds(d1.blocks[d.currentDir], s);
    }
  }

  /** A sound walk stays sound, keeps every name held, and leaves every
      segment held somewhere. */
  lemma {:induction false} WalkSound(d: Disk, segs: seq<string>)
    requires WalkState(d) && Names(segs) && Sound(d)
    requires MkDirWalk(d, segs).Ok?
    ensures Sound(MkDirWalk(d, segs).value)
    ensures HoldsKept(d, MkDirWalk(d, segs).value)
    ensures forall i :: 0 <= i < |segs| ==> !NameAbsent(MkDirWalk(d, segs).value.blocks, segs[i])
    decreases |segs|
  {
    if |segs| > 0 {
      var r := MkDirWalk(d, segs).value;
      var d1 := WalkStepSound(d, segs);
      WalkSound(d1, segs[1..]);
      HoldsKeptTrans(d, d1, r);
      PresentKept(d1, r, segs[0]);
      forall i | 1 <= i < |segs| ensures !NameAbsent(r.blocks, segs[i]) {
        assert segs[i] == segs[1..][i - 1];
      }
    }
  }

  /** mkdir keeps a sound state sound, and afterwards dir_index finds every
      segment of a path it did not refuse as too long. */
  lemma MkDirSound(d: Disk, path: string)
    requires Valid(d) && Sound(d) && '\0' !in path && MkDir(d, path).Ok?
    ensures Sound(MkDir(d, path).value)
    ensures |path| <= MAXPATHLENGTH ==> AllPresent(MkDir(d, path).value, ParsePath(path))
  {
    if |path| <= MAXPATHLENGTH {
      NamesOfPath(path);
      var start := if |path| > 0 && path[0] == '/' then d.rootDir else d.currentDir;
      var d0 := d.(currentDir := start);
      WalkSound(d0, ParsePath(path));
      var w := MkDirWalk(d0, ParsePath(path)).value;
      assert MkDir(d, path).value == w.(currentDir := d.currentDir);
    }
  }

  /** In a sound state, mkdir is idempotent: a second mkdir of the same path
      finds every segment and changes nothing. */
  lemma MkDirIdempotent(d: Disk, path: string)
    requires Valid(d) && Sound(d) && '\0' !in path && MkDir(d, path).Ok?
    ensures MkDir(MkDir(d, path).value, path) == MkDir(d, path)
  {
    var d' := MkDir(d, path).value;
    if |path| <= MAXPATHLENGTH {
      NamesOfPath(path);
      var start := if |path| > 0 && path[0] == '/' then d.rootDir else d.currentDir;
      var d0 := d.(currentDir := start);
      WalkSound(d0, ParsePath(path));
      var w := MkDirWalk(d0, ParsePath(path)).value;
      assert d' == w.(currentDir := d.currentDir);
      forall i | 0 <= i < |ParsePath(path)| ensures !NameAbsent(d'.blocks, ParsePath(path)[i]) {
        assert !NameAbsent(w.blocks, ParsePath(path)[i]);
      }
      MkDirExisting(d', path);
    }
  }

  // ----- chdir ------------------------------------------------------------------------

  /** mychdir: "/" moves to the root; otherwise, when every segment is found by
      the global scan, move to what the scan finds for the last segment, and
      when one is missing stay put. The path is first copied into a MAXNAME-byte
      buffer. */
  function ChDir(d: Disk, path: string): (r: Outcome<Disk>)
    requires Valid(d) && '\0' !in path
    ensures r.Ok? ==> ValidStore(r.value) && 0 <= r.value.currentDir < MAXBLOCKS
    ensures r.Ok? ==> r.value.(currentDir := d.currentDir) == d
    ensures |path| > MAXPATHLENGTH ==> r == Ok(d)
    ensures r.Undefined? <==>
      |path| <= MAXPATHLENGTH && (|path| >= MAXNAME || (path != "/" && |ParsePath(path)| == 0))
    ensures path == "/" ==> r == Ok(d.(currentDir := d.rootDir))
    ensures |path| < MAXNAME && path != "/" && |ParsePath(path)| > 0 ==>
      && r.Ok?
      && (!AllPresent(d, ParsePath(path)) ==> r.value == d)
      && (AllPresent(d, ParsePath(path)) ==>
            r.value.currentDir == DirIndex(d.blocks, Last(ParsePath(path))))
  {
    if |path| > MAXPATHLENGTH then
      Ok(d)
    else if |path| >= MAXNAME then
      Undefined("mychdir copies the path into a MAXNAME-byte buffer")
    else if path == "/" then
      Ok(d.(currentDir := d.rootDir))
    else
      var segs := ParsePath(path);
      if |segs| == 0 then
        Undefined("mychdir looks up an uninitialised name")
      else if !AllPresent(d, segs) then
        Ok(d)
      else
        assert !NameAbsent(d.blocks, segs[|segs| - 1]);
        Ok(d.(currentDir := DirIndex(d.blocks, Last(segs))))
  }

  /** Where chdir lands does not depend on where it starts, except for a
      missing segment, which leaves the start unchanged. */
  lemma ChDirIgnoresCurrent(d: Disk, path: string, c: int)
    requires Valid(d) && '\0' !in path && 0 <= c < MAXBLOCKS
    requires |path| < MAXNAME && path != "/" && |ParsePath(path)| > 0
    requires AllPresent(d, ParsePath(path))
    ensures ChDir(d, path).Ok? && ChDir(d.(currentDir := c), path).Ok?
    ensures ChDir(d, path).value.currentDir == ChDir(d.(currentDir := c), path).value.currentDir
  {
  }

  // ----- rmdir ------------------------------------------------------------------------

  /** The last step of myrmdir: in the directory that slot 0 of record `y`
      names as parent, mark the first in-use directory entry named `name`
      unused and free the block it points to. Nothing else changes; with no
      such entry nothing changes at all. */
  function RemoveFromParent(d: Disk, y: int, name: string): (r: Disk)
    requires Valid(d) && 0 <= y < MAXBLOCKS
    ensures Valid(r) && r.rootDir == d.rootDir && r.currentDir == d.currentDir
    ensures var p := DirAt(d, y).slots[0].firstBlock;
      var rec := DirAt(d, p);
      var m := FirstWhere(rec.slots, LiveDirNamed(name), 0);
      && (m.None? ==> r == d)
      && (m.Some? ==>
            var e := rec.slots[m.value];
            && e.isDir && !e.unused && e.name == name
            && r.fat == d.fat[e.firstBlock := UNUSED]
            && r.blocks[p] == Directory(PutSlot(rec, m.value, e.(unused := true)))
            && (forall z :: 0 <= z < MAXBLOCKS && z != p ==> r.blocks[z] == d.blocks[z]))
  {
    var parent := DirAt(d, y).slots[0].firstBlock;
    var d1 := DeleteDir(d.(currentDir := parent), name);
    d1.(currentDir := d.currentDir)
  }

  /** myrmdir: "/" moves to the root and stays there. Otherwise, when every
      segment is found, read the record the last segment's entry points to,
      take its slot 0 (the ".." entry add_dir writes) as the parent, free the
      first in-use directory entry with that name in the parent, and restore
      the current directory. The record itself is left in place. A missing
      segment or an over-long path changes nothing. */
  function RmDir(d: Disk, path: string): (r: Outcome<Disk>)
    requires Valid(d) && '\0' !in path
    ensures r.Undefined? <==>
      || MAXNAME <= |path| <= MAXPATHLENGTH
      || (|path| < MAXNAME && path != "/" && |ParsePath(path)| == 0)
    ensures r.Ok? ==> Valid(r.value) && r.value.rootDir == d.rootDir
    ensures r.Ok? && path != "/" ==> r.value.currentDir == d.currentDir
    ensures |path| > MAXPATHLENGTH ==> r == Ok(d)
    ensures path == "/" ==> r == Ok(d.(currentDir := d.rootDir))
    ensures |path| < MAXNAME && path != "/" && |ParsePath(path)| > 0 ==>
      && (!AllPresent(d, ParsePath(path)) ==> r == Ok(d))
      && (AllPresent(d, ParsePath(path)) ==>
            var s := Last(ParsePath(path));
            r == Ok(RemoveFromParent(d, DirIndex(d.blocks, s), s)))
  {
    if |path| > MAXPATHLENGTH then
      Ok(d)
    else if |path| >= MAXNAME then
      Undefined("myrmdir copies the path into a MAXNAME-byte buffer")
    else if path == "/" then
      Ok(d.(currentDir := d.rootDir))
    else
      var segs := ParsePath(path);
      if |segs| == 0 then
        Undefined("myrmdir looks up an uninitialised name")
      else if !AllPresent(d, segs) then
        Ok(d)
      else
        Ok(RemoveFromParent(d, DirIndex(d.blocks, Last(segs)), Last(segs)))
  }

  /** The parent myrmdir reads for the name `s`: slot 0 of the record the
      global scan finds for `s`. */
  function RmDirParent(d: Disk, s: string): (p: int)
    requires Valid(d) && !NameAbsent(d.blocks, s)
    ensures 0 <= p < MAXBLOCKS
  {
    DirAt(d, DirIndex(d.blocks, s)).slots[0].firstBlock
  }

  /** At most one in-use directory entry of the record carries `s`. */
  predicate SingleDirEntry(r: DirRecord, s: string) {
    forall i, j :: 0 <= i < j < |r.slots| && Matches(r.slots[i], LiveDirNamed(s)) ==> !Matches(r.slots[j], LiveDirNamed(s))
  }

  /** rmdir of a path whose segments are all found leaves the parent it reads
      with no in-use directory entry under the last segment, provided the
      parent had at most one, and frees the block any such entry pointed to. */
  lemma RmDirHides(d: Disk, path: string)
    requires Valid(d) && '\0' !in path && |path| < MAXNAME && path != "/"
    requires |ParsePath(path)| > 0
    requires AllPresent(d, ParsePath(path))
    requires SingleDirEntry(DirAt(d, RmDirParent(d, Last(ParsePath(path)))), Last(ParsePath(path)))
    ensures RmDir(d, path).Ok?
    ensures var s := Last(ParsePath(path));
      var p := RmDirParent(d, s);
      var r := RmDir(d, path).value;
      && FirstWhere(DirAt(r, p).slots, LiveDirNamed(s), 0).None?
      && forall i :: 0 <= i < DIRENTRYCOUNT && Matches(DirAt(d, p).slots[i], LiveDirNamed(s)) ==>
           r.fat[DirAt(d, p).slots[i].firstBlock] == UNUSED
  {
    var s := Last(ParsePath(path));
    var p := RmDirParent(d, s);
    var rec := DirAt(d, p);
    var r := RmDir(d, path).value;
    assert r == RemoveFromParent(d, DirIndex(d.blocks, s), s);
    match FirstWhere(rec.slots, LiveDirNamed(s), 0)
    case None =>
      forall j | 0 <= j < DIRENTRYCOUNT ensures !Matches(DirAt(r, p).slots[j], LiveDirNamed(s)) {
        assert !Matches(rec.slots[j], LiveDirNamed(s));
      }
    case Some(k) =>
      forall j | 0 <= j < DIRENTRYCOUNT ensures !Matches(DirAt(r, p).slots[j], LiveDirNamed(s)) {
        if j != k {
          assert DirAt(r, p).slots[j] == rec.slots[j];
          assert j < k ==> !Matches(rec.slots[j], LiveDirNamed(s));
        }
      }
      forall i | 0 <= i < DIRENTRYCOUNT && Matches(rec.slots[i], LiveDirNamed(s))
        ensures r.fat[rec.slots[i].firstBlock] == UNUSED
      {
        assert i == k;
      }
  }

  // ----- mkdir, chdir and rmdir together -------------------------------------------------

  /** add_dir of a fresh name puts it in the current directory, and the global
      scan finds it there, leading to the lowest free block. */
  lemma AddDirFinds(d: Disk, s: string)
    requires FreshMkDir(d, s)
    ensures DirIndex(AddDir(d, s).blocks, s) == NextFreeFat(d.fat).block
  {
    var c := d.currentDir;
    var d1 := AddDir(d, s);
    var n := NextFreeFat(d.fat).block;
    var k := NextFreeDirEntry(DirAt(d, c));
    assert n != c;
    var rec := DirAt(d1, c);
    assert rec == PutSlot(DirAt(d, c), k, Entry(true, false, n, s));
    assert rec.slots[k] == Entry(true, false, n, s) && rec.isDir;
    assert BlockHolds(d1.blocks[c], s);
    forall y | 0 <= y < MAXBLOCKS && y != c ensures !BlockHolds(d1.blocks[y], s) {
      if y == n {
        assert DirAt(d1, n) == NewDirRecord(c);
      } else {
        assert d1.blocks[y] == d.blocks[y];
      }
    }
    forall i | 0 <= i < DIRENTRYCOUNT && i != k ensures !InUseNamed(rec.slots[i], s) {
      assert rec.slots[i] == DirAt(d, c).slots[i];
    }
    var l := DirLookup(d1.blocks, s, 0);
    assert l.Some? && l.value.block == c && l.value.slot == k;
  }

  /** The state mkdir of a fresh single name leaves: the lowest free block holds
      a new record whose ".." is the current directory, and the global scan
      finds the name there. */
  lemma MkDirNewName(d: Disk, s: string)
    requires FreshMkDir(d, s)
    ensures MkDir(d, s) == Ok(AddDir(d, s))
    ensures DirIndex(AddDir(d, s).blocks, s) == NextFreeFat(d.fat).block
  {
    var d1 := AddDir(d, s);
    AddDirFinds(d, s);
    SingleSegment(s);
    ShortPathTokenizable(s);
    assert s[0] != '/';
    assert MkDirWalk(d, [s]) == MkDirWalk(d1.(currentDir := DirIndex(d1.blocks, s)), []);
  }

  /** After mkdir of a fresh name, chdir to it lands on the new record, whose
      ".." entry leads back to the directory mkdir ran in. */
  lemma MkDirThenChDir(d: Disk, s: string)
    requires FreshMkDir(d, s)
    ensures MkDir(d, s).Ok?
    ensures ChDir(MkDir(d, s).value, s).Ok?
    ensures var e := ChDir(MkDir(d, s).value, s).value;
      && e.currentDir == NextFreeFat(d.fat).block
      && DirAt(e, e.currentDir).slots[0] == Entry(true, false, d.currentDir, "..")
  {
    MkDirNewName(d, s);
    SingleSegment(s);
    var d1 := AddDir(d, s);
    assert DirIndex(d1.blocks, s) != -1;
    assert AllPresent(d1, [s]);
  }

  /** The preconditions under which mkdir of a single fresh name succeeds: the
      current directory is a live record with a free slot, a block is free,
      and the name is nowhere in use. ".." is excluded because the new record
      itself holds it. */
  predicate FreshMkDir(d: Disk, s: string) {
    && Valid(d) && IsSegment(s) && ValidName(s) && s != ".."
    && NameAbsent(d.blocks, s)
    && d.blocks[d.currentDir].Directory? && DirAt(d, d.currentDir).isDir
    && d.fat[d.currentDir] != UNUSED
    && HasFreeSlot(DirAt(d, d.currentDir)) && HasFree(d.fat)
  }

  /** delete_dir right after add_dir of a fresh name frees exactly the entry
      add_dir wrote: the name is unreachable again and its block is free, but
      the block still holds the new record. */
  lemma DeleteAddedDir(d: Disk, s: string)
    requires FreshMkDir(d, s)
    ensures var d1 := AddDir(d, s);
      var e := DeleteDir(d1, s);
      var n := NextFreeFat(d.fat).block;
      && NameAbsent(e.blocks, s)
      && e.fat[n] == UNUSED
      && e.blocks[n] == Directory(NewDirRecord(d.currentDir))
      && e.currentDir == d.currentDir
  {
    var c := d.currentDir;
    var d1 := AddDir(d, s);
    var n := NextFreeFat(d.fat).block;
    var k := NextFreeDirEntry(DirAt(d, c));
    assert n != c;
    var rec := DirAt(d1, c);
    assert rec == PutSlot(DirAt(d, c), k, Entry(true, false, n, s));
    forall i | 0 <= i < DIRENTRYCOUNT && i != k ensures !InUseNamed(rec.slots[i], s) {
      assert rec.slots[i] == DirAt(d, c).slots[i];
    }
    assert Matches(rec.slots[k], LiveDirNamed(s));
    assert FirstWhere(rec.slots, LiveDirNamed(s), 0) == Some(k);
    var e := DeleteDir(d1, s);
    assert e.blocks[c] == Directory(PutSlot(rec, k, rec.slots[k].(unused := true)));
    forall y | 0 <= y < MAXBLOCKS ensures !BlockHolds(e.blocks[y], s) {
      if y == c {
        forall i | 0 <= i < DIRENTRYCOUNT ensures !InUseNamed(DirAt(e, c).slots[i], s) {
          if i != k {
            assert DirAt(e, c).slots[i] == rec.slots[i];
          }
        }
      } else if y == n {
        assert DirAt(e, n) == NewDirRecord(c);
      } else {
        assert e.blocks[y] == d.blocks[y];
      }
    }
  }

  /** rmdir of a name add_dir has just entered is delete_dir in the directory
      add_dir ran in, since the new record's slot 0 names it. */
  lemma RmDirAfterAdd(d: Disk, s: string)
    requires FreshMkDir(d, s)
    ensures RmDir(AddDir(d, s), s) == Ok(DeleteDir(AddDir(d, s), s))
  {
    var c := d.currentDir;
    AddDirFinds(d, s);
    var d1 := AddDir(d, s);
    var n := NextFreeFat(d.fat).block;
    assert RmDir(d1, s) == Ok(RemoveFromParent(d1, n, s)) by {
      SingleSegment(s);
      assert AllPresent(d1, [s]);
      assert Last([s]) == s;
    }
    assert DirAt(d1, n).slots[0].firstBlock == c;
    assert d1.(currentDir := c) == d1;
  }

  /** rmdir after mkdir of a fresh name makes the name unreachable again and
      frees its block, but the new record stays on the disk, still marked as a
      directory: the state is no longer sound, so a later allocation may hand
      out a block the global scan still reads. */
  lemma MkDirThenRmDir(d: Disk, s: string)
    requires FreshMkDir(d, s)
    ensures MkDir(d, s).Ok?
    ensures RmDir(MkDir(d, s).value, s).Ok?
    ensures var e := RmDir(MkDir(d, s).value, s).value;
      var n := NextFreeFat(d.fat).block;
      && NameAbsent(e.blocks, s)
      && e.fat[n] == UNUSED
      && e.blocks[n] == Directory(NewDirRecord(d.currentDir))
      && !Sound(e)
  {
    MkDirNewName(d, s);
    RmDirAfterAdd(d, s);
    DeleteAddedDir(d, s);
  }
}
