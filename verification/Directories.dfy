/** Directory entries and `fs_create_dir`. */
module Directories {
  import opened Bytes
  import opened Layout
  import opened Paths
  import opened Volumes
  import opened Invariants
  import opened Isolation
  import opened Persistence
  import opened Growth

  /** What every operation keeps, whatever paths it is given. */
  ghost predicate Upkept(v: Volume, w: Volume) {
    && Inv(w)
    && (v.bitmap[0] ==> w.bitmap[0])
    && Steady(v, w) && (Clean(v) ==> Clean(w))
    && (SuperStored(v) ==> SuperStored(w))
    && (v.bitmap[0] && Synced(v) ==> Synced(w))
  }

  /** An entry `name` added to directory `p` reaches the disk and is the first of that name. */
  predicate Roomy(v: Volume, p: U32, name: Str) {
    && Searchable(v, p)
    && FreeSlot(Entries(v, p)) < 14
    && FreeSlot(Entries(v, p)) < FindSlot(Entries(v, p), name)
  }

  /** An entry `name` added to directory `p` would hide an older one of that name. */
  predicate Shadows(v: Volume, p: U32, name: Str) {
    Roomy(v, p, name) && FindSlot(Entries(v, p), name) < MAX_DIR_ENTRIES
  }

  // ---------------------------------------------------------------- one entry

  lemma LookupInserted(es: DirBlock, name: Str, n: U32, r: DirBlock, nm: Str)
    requires FreeSlot(es) < MAX_DIR_ENTRIES && |name| < MAX_FILENAME && !Used(es[14])
    requires var k := FreeSlot(es); ReadsBackAs(es[k := Entry(StrCpy(es[k].name, name), n, 1)], r)
    ensures Lookup(r, nm) == if nm == name && FreeSlot(es) < 14 && FreeSlot(es) < FindSlot(es, name) then n else Lookup(es, nm)
  {
    hide FindSlot, FreeSlot, CStr, StrCpy, ReadsBackAs, Named;
    var k, s := FreeSlot(es), FindSlot(es, nm);
    InsertedNames(es, k, name, n, r, nm);
    if nm == name && k < 14 && k < s {
      FirstNamed(r, nm, k);
    } else if s < MAX_DIR_ENTRIES {
      FirstNamed(r, nm, s);
    } else {
      assert FindSlot(r, nm) == MAX_DIR_ENTRIES;
    }
  }

  /** Which entries bear a name after the insertion, and what they say. */
  lemma InsertedNames(es: DirBlock, k: nat, name: Str, n: U32, r: DirBlock, nm: Str)
    requires k < MAX_DIR_ENTRIES && !Used(es[k]) && |name| < MAX_FILENAME && !Used(es[14])
    requires ReadsBackAs(es[k := Entry(StrCpy(es[k].name, name), n, 1)], r)
    ensures forall q | 0 <= q < MAX_DIR_ENTRIES :: Named(r[q], nm) <==> q < 14 && if q == k then nm == name else Named(es[q], nm)
    ensures forall q | 0 <= q < MAX_DIR_ENTRIES && Named(r[q], nm) :: r[q].inode == if q == k then n else es[q].inode
    ensures !Named(es[k], nm) && !Named(es[14], nm)
  {
    hide CStr, StrCpy;
    StrCpyRoundTrip(es[k].name, name);
  }

  lemma FirstNamed(r: DirBlock, nm: Str, k: nat)
    requires k < MAX_DIR_ENTRIES && Named(r[k], nm) && forall q | 0 <= q < k :: !Named(r[q], nm)
    ensures FindSlot(r, nm) == k
  {
    hide FindSlot;
    assert !(FindSlot(r, nm) < k);
  }

  lemma LookupRemoved(es: DirBlock, f: U32, r: DirBlock, nm: Str)
    requires SlotOf(es, f) < MAX_DIR_ENTRIES && !Used(es[14]) && Lookup(es, nm) != f
    requires var k := SlotOf(es, f); ReadsBackAs(es[k := Entry(ZeroName(), es[k].inode, 0)], r)
    ensures Lookup(r, nm) == Lookup(es, nm)
  {
    hide FindSlot, SlotOf, CStr;
    var s, s' := FindSlot(es, nm), FindSlot(r, nm);
    var k := SlotOf(es, f);
    assert forall q | 0 <= q < MAX_DIR_ENTRIES && Named(r[q], nm) :: Named(es[q], nm);
    if s < MAX_DIR_ENTRIES {
      assert r[s] == es[s];
    }
  }

  /** Adding an entry changes one lookup at most, and the bytes of no file. */
  lemma AddEntryEffect(v: Volume, p: U32, name: Str, n: U32)
    requires Inv(v) && LiveDir(v.inodes, p) && Orphan(v, n) && v.inodes[n].parent == p && |name| < MAX_FILENAME
    ensures var w := AddEntry(v, p, name, n).0;
      && w == v.(disk := w.disk)
      && (forall s | 0 <= s < DATA_START_SECTOR :: w.disk[s] == v.disk[s])
      && (!Searchable(v, p) ==> w == v)
      && (forall i | Live(v.inodes, i) && i != p :: Kept(v, w, i))
      && (forall nm :: Step(w, p, nm) == if nm == name && Roomy(v, p, name) then n else Step(v, p, nm))
      && (Searchable(v, p) ==> var es := Entries(v, p); var k := FreeSlot(es);
           k < MAX_DIR_ENTRIES && ReadsBackAs(es[k := Entry(StrCpy(es[k].name, name), n, 1)], Entries(w, p)))
  {
    hide DecodeDir, EncodeDir, FreeSlot, FindSlot, StrCpy, CStr;
    var w := AddEntry(v, p, name, n).0;
    var es, b := Entries(v, p), FirstBlock(v, p);
    assert NodeOk(v.inodes, p);
    LastEntryUnused(ReadBlock(v, b));
    if b != 0 {
      var k := FreeSlot(es);
      var e := Entry(StrCpy(es[k].name, name), n, 1);
      DirRoundTrip(es[k := e]);
      assert ReadBlock(w, b) == EncodeDir(es[k := e]);
      assert ReadsBackAs(es[k := e], Entries(w, p));
      forall nm
        ensures Step(w, p, nm) == if nm == name && Roomy(v, p, name) then n else Step(v, p, nm)
      {
        LookupInserted(es, name, n, Entries(w, p), nm);
      }
    }
    OnlyBlockChanged(v, w, p);
  }

  /** A write to the block of directory `p` leaves every other inode alone. */
  lemma OnlyBlockChanged(v: Volume, w: Volume, p: U32)
    requires Inv(v) && LiveDir(v.inodes, p) && w.inodes == v.inodes
    requires forall b: U32 | b != FirstBlock(v, p) :: ReadBlock(w, b) == ReadBlock(v, b)
    ensures forall i | Live(v.inodes, i) && i != p :: Kept(v, w, i)
  {
    var c := FirstBlock(v, p);
    assert Holds(v.inodes, p, 0, c);
    forall i | Live(v.inodes, i) && i != p
      ensures Kept(v, w, i)
    {
      forall j | 0 <= j < DIRECT_BLOCKS
        ensures ReadBlock(w, v.inodes[i].blocks[j]) == ReadBlock(v, v.inodes[i].blocks[j])
      {
        assert Holds(v.inodes, i, j, v.inodes[i].blocks[j]);
      }
    }
  }

  lemma AddEntryExtends(v: Volume, p: U32, name: Str, n: U32)
    requires Inv(v) && LiveDir(v.inodes, p) && Orphan(v, n) && v.inodes[n].parent == p && |name| < MAX_FILENAME
    requires !Shadows(v, p, name)
    ensures Extends(v, AddEntry(v, p, name, n).0, {})
  {
    hide AddEntry, DecodeDir, FreeSlot, FindSlot, StrCpy, CStr, EncodeDir;
    var w := AddEntry(v, p, name, n).0;
    AddEntryEffect(v, p, name, n);
    forall i: U32, nm | LiveDir(v.inodes, i)
      ensures StepKept(v, w, i, nm, {})
    {
      if i != p {
        KeptEntries(v, w, i);
      }
    }
  }

  /** Writing metadata sectors leaves every inode alone. */
  lemma MetadataWriteExtends(v: Volume, w: Volume)
    requires w == v.(disk := w.disk) && forall s | DATA_START_SECTOR <= s < DISK_SECTORS :: w.disk[s] == v.disk[s]
    ensures forall i | 0 <= i < MAX_INODES :: Kept(v, w, i)
    ensures Extends(v, w, {})
    ensures forall i: U32, nm :: Step(w, i, nm) == Step(v, i, nm)
    ensures forall i: U32 :: Entries(w, i) == Entries(v, i)
  {
    hide DecodeDir;
    AllKeptExtends(v, w);
  }

  // ---------------------------------------------------------------- one new directory

  lemma NewDirIsFresh(t: InodeTable, n: U32, p: U32)
    requires n < MAX_INODES && t[n].parent == p
    ensures FreshDir(t, n, DecodeDir(EncodeDir(NewDir(n, p))))
  {
    hide DecodeDir, EncodeDir;
    DirRoundTrip(NewDir(n, p));
    StrCpyRoundTrip(ZeroName(), SELF);
    StrCpyRoundTrip(ZeroName(), UP);
  }

  /** The volume just before the new directory is listed in its parent. */
  function Prepared(v: Volume, p: U32): (Volume, U32, bool) {
    var (v1, n) := NewInode(v, DIR, 0, p);
    if n == NOT_FOUND then (v1, n, false) else
    var (v2, taken) := TakeBlock(v1, n, 0, EncodeDir(NewDir(n, p)));
    (v2, n, taken)
  }

  lemma PreparedKeeps(v: Volume, p: U32)
    requires Inv(v) && LiveDir(v.inodes, p)
    ensures var (u, n, taken) := Prepared(v, p);
      && Inv(u) && Steady(v, u)
      && (n == NOT_FOUND ==> u == v)
      && (n != NOT_FOUND ==> Grown(v, u, n) && Orphan(u, n) && u.inodes[n].kind == DIR && u.inodes[n].parent == p)
      && (n != NOT_FOUND && !taken ==> u.inodes[n].blocks == NoBlocks())
      && (taken && OpenDir(u.inodes, n) ==> FreshDir(u.inodes, n, Entries(u, n)))
      && (taken && v.bitmap[0] ==> Searchable(u, n))
      && (taken ==> var b := FirstClear(v.bitmap, 0); u.bitmap[b] && u.inodes[n].blocks[0] == b)
  {
    hide DecodeDir, EncodeDir;
    var (v1, n) := NewInode(v, DIR, 0, p);
    NewInodeKeeps(v, DIR, 0, p);
    NewInodeGrows(v, DIR, 0, p);
    if n != NOT_FOUND {
      var contents := EncodeDir(NewDir(n, p));
      NewDirIsFresh(v1.inodes, n, p);
      TakeBlockKeeps(v1, n, 0, contents);
      TakeBlockGrows(v, v1, n, 0, contents);
      var (u, taken) := TakeBlock(v1, n, 0, contents);
      if taken {
        NewDirIsFresh(u.inodes, n, p);
      }
    }
  }

  lemma MakeDirIs(v: Volume, p: U32, name: Str)
    requires Inv(v) && LiveDir(v.inodes, p) && |name| < MAX_FILENAME
    ensures var (u, n, taken) := Prepared(v, p);
      MakeDir(v, p, name) ==
        if n == NOT_FOUND then (v, false)
        else if !taken then (FreeInode(u, n), false)
        else (SyncNodes(AddEntry(u, p, name, n).0), true)
  {
    hide DecodeDir, EncodeDir, NewInode, TakeBlock;
    PreparedKeeps(v, p);
    var (v1, n) := NewInode(v, DIR, 0, p);
    if n != NOT_FOUND {
      NewInodeKeeps(v, DIR, 0, p);
      NewInodeGrows(v, DIR, 0, p);
      var (u, taken) := TakeBlock(v1, n, 0, EncodeDir(NewDir(n, p)));
      TakeBlockGrows(v, v1, n, 0, EncodeDir(NewDir(n, p)));
      if taken {
        AddEntryKeeps(u, p, name, n);
      }
    }
  }

  lemma MakeDirKeeps(v: Volume, p: U32, name: Str)
    requires Inv(v) && p < MAX_INODES && |name| < MAX_FILENAME
    ensures Upkept(v, MakeDir(v, p, name).0)
    ensures !Shadows(v, p, name) ==> Extends(v, MakeDir(v, p, name).0, {})
  {
    hide DecodeDir, EncodeDir, Prepared, SyncNodes, MakeDir, FreeInode, AddEntry, LoadSuper, BitmapSector;
    if !LiveDir(v.inodes, p) {
      assert MakeDir(v, p, name) == (v, false) by { NotADir(v, p, name); }
      AllKeptExtends(v, v);
      return;
    }
    var (u, n, taken) := Prepared(v, p);
    PreparedKeeps(v, p);
    MakeDirIs(v, p, name);
    if n == NOT_FOUND {
      AllKeptExtends(v, v);
    } else if !taken {
      assert NodeOk(u.inodes, n);
      FreeInodeKeeps(u, n);
      RollbackKept(v, u, n);
      NoMetadataBlocks(v, u, n);
      SuperFrame(v, FreeInode(u, n));
    } else {
      ListedKeeps(v, u, p, name, n);
    }
  }

  lemma NotADir(v: Volume, p: U32, name: Str)
    requires KindOf(v, p) != DIR && |name| < MAX_FILENAME
    ensures MakeDir(v, p, name) == (v, false)
  {
  }

  /** Listing a grown inode in its parent and writing the nodes. */
  lemma ListedKeeps(v: Volume, u: Volume, p: U32, name: Str, n: U32)
    requires Inv(v) && Inv(u) && Grown(v, u, n) && Orphan(u, n) && Steady(v, u)
    requires LiveDir(v.inodes, p) && u.inodes[n].parent == p && |name| < MAX_FILENAME
    ensures var w := SyncNodes(AddEntry(u, p, name, n).0);
      && Upkept(v, w) && (!Shadows(v, p, name) ==> Extends(v, w, {}))
      && (SuperStored(v) ==> Synced(w))
  {
    hide DecodeDir, EncodeDir, AddEntry, SyncNodes, Roomy, LoadSuper, BitmapSector, Inv, Tidy, DriftOf, TableStored, BlankStored, Extends, Orphan;
    var x := AddEntry(u, p, name, n).0;
    var w := SyncNodes(x);
    AddEntryKeeps(u, p, name, n);
    ListedDisk(v, u, p, name, n);
    MetadataWriteKeeps(x, w);
    assert Tidy(x) ==> BlankStored(w.disk, w.inodes) by { TidySyncs(x); }
    if SuperStored(v) {
      SyncNodesSyncs(x);
    }
    if !Shadows(v, p, name) {
      ListedExtends(v, u, p, name, n);
    }
  }

  lemma ListedDisk(v: Volume, u: Volume, p: U32, name: Str, n: U32)
    requires Inv(v) && Inv(u) && Grown(v, u, n) && Orphan(u, n)
    requires LiveDir(v.inodes, p) && u.inodes[n].parent == p && |name| < MAX_FILENAME
    ensures var x := AddEntry(u, p, name, n).0; var w := SyncNodes(x);
      && x == u.(disk := x.disk) && w == x.(disk := w.disk)
      && (forall s | DATA_START_SECTOR <= s < DISK_SECTORS :: w.disk[s] == x.disk[s])
      && (SuperStored(v) ==> SuperStored(x) && SuperStored(w)) && (v.bitmap[0] ==> w.bitmap[0])
  {
    hide DecodeDir, EncodeDir, AddEntry, SyncNodes, Roomy, LoadSuper, BitmapSector;
    var x := AddEntry(u, p, name, n).0;
    AddEntryEffect(u, p, name, n);
    NoMetadataBlocks(v, u, n);
    SuperFrame(v, x);
    SyncNodesFrame(x);
    SuperSectorFrame(x, SyncNodes(x));
  }

  lemma SuperSectorFrame(v: Volume, w: Volume)
    requires SameSuper(w.sb, v.sb) && w.disk[SUPERBLOCK_SECTOR] == v.disk[SUPERBLOCK_SECTOR]
    ensures SuperStored(v) ==> SuperStored(w)
  {
    SuperOfSector(v.disk, w.disk);
  }

  lemma TidySyncs(x: Volume)
    ensures Tidy(x) ==> BlankStored(SyncNodes(x).disk, x.inodes)
  {
    hide MarkedAreHeld, SyncNodes, BlankStored;
    SyncNodesBlank(x);
  }

  lemma ListedExtends(v: Volume, u: Volume, p: U32, name: Str, n: U32)
    requires Inv(v) && Inv(u) && Grown(v, u, n) && Orphan(u, n) && !Shadows(v, p, name)
    requires LiveDir(v.inodes, p) && u.inodes[n].parent == p && |name| < MAX_FILENAME
    ensures Extends(v, SyncNodes(AddEntry(u, p, name, n).0), {})
  {
    hide DecodeDir, EncodeDir, AddEntry, SyncNodes, Roomy, Extends;
    var x := AddEntry(u, p, name, n).0;
    GrownKept(v, u, n);
    SameRoom(v, u, p, name);
    AddEntryExtends(u, p, name, n);
    SyncNodesFrame(x);
    MetadataWriteExtends(x, SyncNodes(x));
    ExtendsThen(v, u, x, {});
    ExtendsThen(v, x, SyncNodes(x), {});
  }

  lemma SameRoom(v: Volume, u: Volume, p: U32, name: Str)
    requires p < MAX_INODES && Kept(v, u, p)
    ensures Roomy(u, p, name) == Roomy(v, p, name) && Shadows(u, p, name) == Shadows(v, p, name)
    ensures Entries(u, p) == Entries(v, p)
  {
    hide DecodeDir;
    KeptEntries(v, u, p);
  }

  lemma SuperFrame(v: Volume, w: Volume)
    requires SameSuper(w.sb, v.sb) && forall s | 0 <= s < DATA_START_SECTOR :: w.disk[s] == v.disk[s]
    ensures SuperStored(v) ==> SuperStored(w)
  {
  }

  lemma SyncNodesFrame(v: Volume)
    ensures var w := SyncNodes(v);
      && w == v.(disk := w.disk)
      && (forall s | DATA_START_SECTOR <= s < DISK_SECTORS :: w.disk[s] == v.disk[s])
      && w.disk[SUPERBLOCK_SECTOR] == v.disk[SUPERBLOCK_SECTOR]
  {
    hide TableSector, BitmapSector;
  }

  /** The directory block of the parent once a new inode is listed and the nodes are written. */
  lemma ListedEntries(u: Volume, p: U32, name: Str, n: U32)
    requires Inv(u) && Searchable(u, p) && Orphan(u, n) && u.inodes[n].parent == p && |name| < MAX_FILENAME
    ensures var w := SyncNodes(AddEntry(u, p, name, n).0); var es := Entries(u, p); var k := FreeSlot(es);
      && w.inodes == u.inodes && k < MAX_DIR_ENTRIES
      && ReadsBackAs(es[k := Entry(StrCpy(es[k].name, name), n, 1)], Entries(w, p))
  {
    hide DecodeDir, EncodeDir, SyncNodes, AddEntry, Roomy, FreeSlot, FindSlot, StrCpy, ReadsBackAs;
    var x := AddEntry(u, p, name, n).0;
    AddEntryEffect(u, p, name, n);
    SyncNodesFrame(x);
    MetadataWriteExtends(x, SyncNodes(x));
  }
}
