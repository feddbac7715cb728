/** Cutting `fs_delete_file` after any prefix of its sector writes. */
module Crash {
  import opened Bytes
  import opened Layout
  import opened Paths
  import opened Volumes
  import opened Invariants
  import opened Isolation
  import opened Persistence
  import opened Growth
  import opened Files
  import opened Names
  import opened Deletion
  import opened Writes

  /** The writes of `fs_delete_file`: the directory block, then the inode table, then the bitmap. */
  function DeleteWrites(v: Volume, cs: Path): seq<SectorWrite> {
    if Resolve(v, Parent(cs)) == NOT_FOUND || !ResolvesToFile(v, cs) then []
    else
      var p, f := Resolve(v, Parent(cs)), Resolve(v, cs);
      var y := RemoveEntry(FreeInode(v, f), p, f);
      BlockWrites(FirstBlock(y, p), ReadBlock(y, FirstBlock(y, p))) + NodeWrites(y.inodes, y.bitmap)
  }

  /** The write list is what a delete does to the disk. */
  lemma DeleteWritesComplete(v: Volume, cs: Path)
    requires Inv(v)
    ensures Apply(v.disk, DeleteWrites(v, cs)) == DeleteFile(v, cs).0.disk
  {
    hide StoreNodes, NodeWrites, DecodeDir, EncodeDir, SlotOf, Walk, FreeInode, Apply, RemoveEntry;
    if !ResolvesToFile(v, cs) {
      ApplyNone(v.disk);
    } else {
      FileIsListed(v, cs);
      var p, f := Resolve(v, Parent(cs)), Resolve(v, cs);
      var y := RemoveEntry(FreeInode(v, f), p, f);
      var b := FirstBlock(y, p);
      FreeThenRemove(v, p, f);
      assert NodeOk(v.inodes, p);
      ApplyConcat(v.disk, BlockWrites(b, ReadBlock(y, b)), NodeWrites(y.inodes, y.bitmap));
      ApplyOne(v.disk, SectorWrite(DATA_START_SECTOR + b, ReadBlock(y, b)));
      ApplyNodes(y.disk, y.inodes, y.bitmap);
      DirWriteIs(v, p, f);
    }
  }

  lemma DirWriteIs(v: Volume, p: U32, f: U32)
    requires Inv(v) && OpenDir(v.inodes, p) && Live(v.inodes, f) && p != f
    ensures var y := RemoveEntry(FreeInode(v, f), p, f); var b := FirstBlock(y, p);
      0 < b < MAX_BLOCKS && b == FirstBlock(v, p) && y.disk == v.disk[DATA_START_SECTOR + b := ReadBlock(y, b)]
  {
    hide DecodeDir, EncodeDir, SlotOf, FreeInode;
    FreeThenRemove(v, p, f);
    assert NodeOk(v.inodes, p);
  }

  // ---------------------------------------------------------------- what a reload finds

  /** Inode `i` as reloaded: as it was, or, if it is the one being freed, possibly already free. */
  ghost predicate Survives(t: InodeTable, r: InodeTable, i: nat, f: nat)
    requires i < MAX_INODES
  {
    if t[i].kind == FREE then r[i].kind == FREE else r[i] == t[i] || (i == f && r[i].kind == FREE)
  }

  lemma MixedInode(d: Disk, e: Disk, t: InodeTable, t': InodeTable, j: nat, i: nat, f: nat)
    requires j <= TABLE_SECTORS && i < MAX_INODES && f < MAX_INODES && TableStored(d, t) && PartSynced(d, e, t', j)
    requires t'[f].kind == FREE && forall q | 0 <= q < MAX_INODES && q != f :: t'[q] == t[q]
    ensures Survives(t, LoadTable(e), i, f) && RowStored(e, LoadTable(e)[i], i)
    ensures i == f && j == TABLE_SECTORS ==> LoadTable(e)[i].kind == FREE
  {
    hide StoredByte, DecodeInode, TableSector, PartSynced, InodeByte;
    LoadedKind(e, i);
    KindIsFirstByte(LoadTable(e)[i]);
    if i != f {
      MixedOther(d, e, t, t', j, i);
      LoadRow(e, t[i], i);
    } else if INODE_SIZE * i / BLOCK_SIZE < j {
      MixedByte(d, e, t', j, i, 0);
      KindIsFirstByte(t'[i]);
    } else {
      UnwrittenRow(d, e, t, t', j, i);
      LoadRow(e, t[i], i);
    }
  }

  lemma KindIsFirstByte(n: Inode)
    ensures InodeByte(n, 0) == n.kind
  {
  }

  /** Crash safety of delete: after any prefix of its writes a reload finds a safe volume, in which every path to
      another inode resolves as before and every other file reads as before. */
  lemma CrashDuringDelete(v: Volume, cs: Path, k: nat)
    requires Inv(v) && Synced(v) && ResolvesToFile(v, cs) && k <= |DeleteWrites(v, cs)|
    ensures var r := Reload(Apply(v.disk, DeleteWrites(v, cs)[..k]));
      Inv(r) && Synced(r) && Extends(v, r, {Resolve(v, cs)}) && (v.bitmap[0] ==> r.bitmap[0])
  {
    hide DeleteWrites, DecodeDir, Walk, Reload, Apply, Extends;
    FileIsListed(v, cs);
    if k == 0 {
      assert DeleteWrites(v, cs)[..0] == [];
      ApplyNone(v.disk);
      RebootKeeps(v);
      UncutDelete(v, Resolve(v, cs));
    } else {
      var j, finished := CutAfter(v, cs, k);
      CutDelete(v, Resolve(v, Parent(cs)), Resolve(v, cs), Apply(v.disk, DeleteWrites(v, cs)[..k]), j, finished);
    }
  }

  /** The disk after `k > 0` writes: the directory is written, and so are `j` sectors of the table. */
  lemma CutAfter(v: Volume, cs: Path, k: nat) returns (j: nat, finished: bool)
    requires Inv(v) && Synced(v) && ResolvesToFile(v, cs) && 0 < k <= |DeleteWrites(v, cs)|
    ensures var p, f := Resolve(v, Parent(cs)), Resolve(v, cs);
      p < MAX_INODES && f < MAX_INODES &&
      var y := RemoveEntry(FreeInode(v, f), p, f);
      CutDisk(y.disk, Apply(v.disk, DeleteWrites(v, cs)[..k]), y.inodes, v.bitmap, y.bitmap, j, finished)
  {
    hide DecodeDir, EncodeDir, SlotOf, Walk, FreeInode, NodeWrites, Apply, RemoveEntry, TableStored, BitmapSector, TableSector, CutDisk, DeleteWrites,
      Inv, BlockWrites, LoadSuper, ReadBlock, Synced, FirstBlock, Lookup, Entries;
    FileIsListed(v, cs);
    var p, f := Resolve(v, Parent(cs)), Resolve(v, cs);
    var y := RemoveEntry(FreeInode(v, f), p, f);
    var b := FirstBlock(y, p);
    DirWriteIs(v, p, f);
    DeleteWritesAre(v, cs);
    NodeWritesLength(y.inodes, y.bitmap);
    AfterFirst(v.disk, SectorWrite(DATA_START_SECTOR + b, ReadBlock(y, b)), NodeWrites(y.inodes, y.bitmap), k);
    BitmapBehind(v, y, b);
    CutWrites(y.disk, y.inodes, v.bitmap, y.bitmap, k - 1);
    j, finished := if k - 1 <= TABLE_SECTORS then k - 1 else TABLE_SECTORS, k - 1 > TABLE_SECTORS;
  }

  /** A write to a data sector leaves the stored bitmap alone. */
  lemma BitmapBehind(v: Volume, y: Volume, b: U32)
    requires Synced(v) && b < MAX_BLOCKS && y.disk == v.disk[DATA_START_SECTOR + b := ReadBlock(y, b)]
    ensures y.disk[BLOCK_BITMAP_SECTOR] == BitmapSector(v.bitmap)
  {
    hide ReadBlock, BitmapSector, TableStored, LoadSuper;
  }

  lemma DeleteWritesAre(v: Volume, cs: Path)
    requires Inv(v) && ResolvesToFile(v, cs)
    ensures var p, f := Resolve(v, Parent(cs)), Resolve(v, cs); var y := RemoveEntry(FreeInode(v, f), p, f); var b := FirstBlock(y, p);
      && 0 < b < MAX_BLOCKS
      && DeleteWrites(v, cs) == [SectorWrite(DATA_START_SECTOR + b, ReadBlock(y, b))] + NodeWrites(y.inodes, y.bitmap)
  {
    hide DecodeDir, EncodeDir, SlotOf, Walk, FreeInode, NodeWrites, RemoveEntry, ReadBlock, Inv;
    FileIsListed(v, cs);
    DirWriteIs(v, Resolve(v, Parent(cs)), Resolve(v, cs));
  }

  /** Nothing written yet: a plain reboot. */
  lemma UncutDelete(v: Volume, f: U32)
    requires Inv(v) && Synced(v) && Live(v.inodes, f) && v.inodes[f].kind == FILE
    ensures Extends(v, Reload(v.disk), {f})
  {
    hide DecodeDir, Reload;
    var r := Reload(v.disk);
    RebootExtends(v);
    WiderGone(v, r, f);
  }

  lemma WiderGone(v: Volume, r: Volume, f: U32)
    requires Extends(v, r, {}) && Live(v.inodes, f) && v.inodes[f].kind == FILE
    ensures Extends(v, r, {f})
  {
    hide DecodeDir;
    forall i: U32, nm | LiveDir(v.inodes, i)
      ensures StepKept(v, r, i, nm, {f})
    {
      assert StepKept(v, r, i, nm, {});
    }
  }

  lemma CutDelete(v: Volume, p: U32, f: U32, e: Disk, j: nat, finished: bool)
    requires Inv(v) && Synced(v) && OpenDir(v.inodes, p) && Live(v.inodes, f) && v.inodes[f].kind == FILE && v.inodes[f].parent == p
    requires SlotOf(Entries(v, p), f) < MAX_DIR_ENTRIES
    requires var y := RemoveEntry(FreeInode(v, f), p, f); CutDisk(y.disk, e, y.inodes, v.bitmap, y.bitmap, j, finished)
    ensures var r := Reload(e); Inv(r) && Synced(r) && Extends(v, r, {f}) && (v.bitmap[0] ==> r.bitmap[0])
  {
    hide DecodeDir, EncodeDir, SlotOf, FreeInode, RemoveEntry, Inv, LoadTable, LoadBitmap, LoadSuper, TableSector, BitmapSector;
    var x, y, r := RemoveEntry(v, p, f), RemoveEntry(FreeInode(v, f), p, f), Reload(e);
    CutNodes(v, p, f, e, j, finished);
    RemoveEntryKeeps(v, p, f);
    RemoveEntryEffect(v, p, f);
    FreeThenRemove(v, p, f);
    CutIsSafe(x, r, f);
    CutExtends(v, x, r, p, f);
  }

  /** What the nodes look like in the middle. */
  lemma CutNodes(v: Volume, p: U32, f: U32, e: Disk, j: nat, finished: bool)
    requires Inv(v) && Synced(v) && OpenDir(v.inodes, p) && Live(v.inodes, f) && v.inodes[f].kind == FILE && p != f
    requires var y := RemoveEntry(FreeInode(v, f), p, f); CutDisk(y.disk, e, y.inodes, v.bitmap, y.bitmap, j, finished)
    ensures var r := Reload(e);
      && r.sb.rootInode == 0 && Synced(r)
      && (forall i | 0 <= i < MAX_INODES :: Survives(v.inodes, r.inodes, i, f))
      && (v.bitmap[0] ==> r.bitmap[0])
      && (forall b | 0 < b < MAX_BLOCKS && v.bitmap[b] :: r.bitmap[b] || (b in v.inodes[f].blocks && r.inodes[f].kind == FREE))
  {
    hide DecodeDir, EncodeDir, SlotOf, FreeInode, RemoveEntry, LoadTable, LoadBitmap, LoadSuper, TableSector, BitmapSector, StoredByte, InodeByte;
    var y, r := RemoveEntry(FreeInode(v, f), p, f), Reload(e);
    FreeThenRemove(v, p, f);
    FreedBitmap(v, p, f);
    DirWriteIs(v, p, f);
    TableStoredFrame(v.disk, y.disk, v.inodes);
    forall i | 0 <= i < MAX_INODES
      ensures Survives(v.inodes, r.inodes, i, f) && (i == f && j == TABLE_SECTORS ==> r.inodes[i].kind == FREE)
      ensures RowStored(e, r.inodes[i], i)
    {
      MixedInode(y.disk, e, v.inodes, y.inodes, j, i, f);
    }
    RowsStored(e, r.inodes);
    BitmapRoundTrip(e, if finished then y.bitmap else v.bitmap);
    assert LoadSuper(e) == LoadSuper(v.disk) by { SuperOfSector(v.disk, e); }
  }

  lemma FreedBitmap(v: Volume, p: U32, f: U32)
    requires Inv(v) && Live(v.inodes, f) && f < MAX_INODES
    ensures var y := RemoveEntry(FreeInode(v, f), p, f);
      && y.inodes[f].kind == FREE
      && forall b | 0 < b < MAX_BLOCKS :: y.bitmap[b] == (v.bitmap[b] && b !in v.inodes[f].blocks)
  {
    hide DecodeDir, EncodeDir, SlotOf;
    assert NodeOk(v.inodes, f);
    ReleaseFromIs(v, f, 0);
    assert v.inodes[f].blocks[0..] == v.inodes[f].blocks;
  }

  lemma SurvivorsSame(t: InodeTable, t': InodeTable, f: nat)
    requires f < MAX_INODES && t[f].kind == FILE
    requires forall i | 0 <= i < MAX_INODES :: Survives(t, t', i, f)
    ensures forall i | Live(t', i) :: t'[i] == t[i]
    ensures forall i | Live(t, i) && i != f :: t'[i] == t[i]
    ensures forall i | LiveDir(t, i) :: t'[i] == t[i] && LiveDir(t', i)
  {
    forall i | 0 <= i < MAX_INODES
      ensures t'[i].kind != FREE ==> t'[i] == t[i]
      ensures t[i].kind != FREE && i != f ==> t'[i] == t[i]
    {
      assert Survives(t, t', i, f);
    }
  }

  lemma CutIsSafe(x: Volume, r: Volume, f: U32)
    requires Inv(x) && Orphan(x, f) && x.inodes[f].kind == FILE
    requires r.sb.rootInode == 0
    requires forall i | 0 <= i < MAX_INODES :: Survives(x.inodes, r.inodes, i, f)
    requires forall b | 0 < b < MAX_BLOCKS && x.bitmap[b] :: r.bitmap[b] || (b in x.inodes[f].blocks && r.inodes[f].kind == FREE)
    requires forall s | DATA_START_SECTOR <= s < DISK_SECTORS :: r.disk[s] == x.disk[s]
    ensures Inv(r)
  {
    hide DecodeDir;
    var t, t' := x.inodes, r.inodes;
    SurvivorsSame(t, t', f);
    forall i | Live(t', i)
      ensures NodeOk(t', i)
    {
      assert NodeOk(t, i);
    }
    SameDepths(t, t');
    assert forall i, k, b :: Holds(t', i, k, b) ==> Holds(t, i, k, b);
    forall i, k, b | 0 < b < MAX_BLOCKS && Holds(t', i, k, b)
      ensures r.bitmap[b]
    {
      if b in t[f].blocks {
        var q :| 0 <= q < DIRECT_BLOCKS && t[f].blocks[q] == b;
        assert Holds(t, f, q, b);
      }
    }
    forall d | OpenDir(t', d)
      ensures DirOk(t', d, Entries(r, d))
    {
      var es := Entries(x, d);
      assert NodeOk(t, d);
      assert Entries(r, d) == es;
      assert DirOk(t, d, es);
      assert forall i | 2 <= i < MAX_DIR_ENTRIES :: EntryOk(t, d, es[i]) && EntryOk(t', d, es[i]);
    }
  }

  lemma CutExtends(v: Volume, x: Volume, r: Volume, p: U32, f: U32)
    requires Inv(v) && LiveDir(v.inodes, p) && Live(v.inodes, f) && v.inodes[f].kind == FILE && f != p
    requires forall i | Live(v.inodes, i) && i != p :: Kept(v, x, i)
    requires forall nm :: Step(v, p, nm) != f ==> Step(x, p, nm) == Step(v, p, nm)
    requires x == v.(disk := x.disk) && r.sb.rootInode == 0
    requires forall i | 0 <= i < MAX_INODES :: Survives(v.inodes, r.inodes, i, f)
    requires forall s | DATA_START_SECTOR <= s < DISK_SECTORS :: r.disk[s] == x.disk[s]
    ensures Extends(v, r, {f})
  {
    hide DecodeDir;
    var gone: set<int> := {f};
    SurvivorsSame(v.inodes, r.inodes, f);
    forall i: U32, nm | LiveDir(v.inodes, i)
      ensures StepKept(v, r, i, nm, gone)
    {
      KeptEntries(x, r, i);
      if i != p {
        KeptEntries(v, x, i);
      }
    }
  }

  /** An interrupted delete keeps names unique, too. */
  lemma CrashUnique(v: Volume, cs: Path, k: nat)
    requires Inv(v) && Synced(v) && Unique(v) && ResolvesToFile(v, cs) && k <= |DeleteWrites(v, cs)|
    ensures Unique(Reload(Apply(v.disk, DeleteWrites(v, cs)[..k])))
  {
    hide DeleteWrites, DecodeDir, EncodeDir, Walk, Reload, Apply, Distinct, SlotOf, FreeInode, RemoveEntry, TableStored, LoadTable, CutDisk,
      BitmapSector;
    FileIsListed(v, cs);
    var p, f := Resolve(v, Parent(cs)), Resolve(v, cs);
    if k == 0 {
      assert DeleteWrites(v, cs)[..0] == [];
      ApplyNone(v.disk);
      RebootDirs(v);
      SameDirsUnique(v, Reload(v.disk));
    } else {
      var e := Apply(v.disk, DeleteWrites(v, cs)[..k]);
      var j, finished := CutAfter(v, cs, k);
      CutDirs(v, p, f, e, j, finished);
      RemovedUnique(v, cs);
      SameDirsUnique(RemoveEntry(v, p, f), Reload(e));
    }
  }

  lemma RebootDirs(v: Volume)
    requires Synced(v)
    ensures var r := Reload(v.disk); forall d: U32 | OpenDir(r.inodes, d) :: OpenDir(v.inodes, d) && Entries(r, d) == Entries(v, d)
  {
    hide Reload, DecodeDir;
    var r := Reload(v.disk);
    ReloadSame(v);
    forall d: U32 | OpenDir(r.inodes, d)
      ensures OpenDir(v.inodes, d) && Entries(r, d) == Entries(v, d)
    {
      assert SameNode(v.inodes[d], r.inodes[d]);
    }
  }

  lemma CutDirs(v: Volume, p: U32, f: U32, e: Disk, j: nat, finished: bool)
    requires Inv(v) && Synced(v) && OpenDir(v.inodes, p) && Live(v.inodes, f) && v.inodes[f].kind == FILE && p != f
    requires var y := RemoveEntry(FreeInode(v, f), p, f); CutDisk(y.disk, e, y.inodes, v.bitmap, y.bitmap, j, finished)
    ensures var x, r := RemoveEntry(v, p, f), Reload(e);
      forall d: U32 | OpenDir(r.inodes, d) :: OpenDir(x.inodes, d) && Entries(r, d) == Entries(x, d)
  {
    hide DecodeDir, EncodeDir, SlotOf, FreeInode, RemoveEntry, LoadTable, LoadBitmap, LoadSuper, TableSector, BitmapSector, Inv, Synced;
    var x, r := RemoveEntry(v, p, f), Reload(e);
    CutNodes(v, p, f, e, j, finished);
    FreeThenRemove(v, p, f);
    SurvivorsSame(v.inodes, r.inodes, f);
    assert x.inodes == v.inodes by { RemoveKeepsNodes(v, p, f); }
  }

  lemma RemoveKeepsNodes(v: Volume, p: U32, f: U32)
    ensures RemoveEntry(v, p, f).inodes == v.inodes
  {
    hide DecodeDir, EncodeDir, SlotOf;
  }

  lemma RemovedUnique(v: Volume, cs: Path)
    requires Inv(v) && Unique(v) && ResolvesToFile(v, cs)
    ensures Unique(RemoveEntry(v, Resolve(v, Parent(cs)), Resolve(v, cs)))
  {
    hide DecodeDir, EncodeDir, Walk, SlotOf, RemoveEntry, FindSlot, CStr, Distinct;
    FileIsListed(v, cs);
    var p, f := Resolve(v, Parent(cs)), Resolve(v, cs);
    var es, x := Entries(v, p), RemoveEntry(v, p, f);
    RemoveEntryEffect(v, p, f);
    OnlyEntry(v, p, f, Name(cs));
    DistinctAt(v, p);
    ClearedDistinct(es, f, SlotOf(es, f), Entries(x, p));
    forall d: U32 | OpenDir(x.inodes, d)
      ensures Distinct(Entries(x, d)) || (OpenDir(v.inodes, d) && Entries(x, d) == Entries(v, d))
    {
      if d != p {
        KeptEntries(v, x, d);
      }
    }
    SameDirsUnique(v, x);
  }
}
