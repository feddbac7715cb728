/** Names inside a directory: directories are never unlisted, and exactly which calls keep names unique. */
module Names {
  import opened Bytes
  import opened Layout
  import opened Paths
  import opened Volumes
  import opened Invariants
  import opened Isolation
  import opened Growth
  import opened Directories
  import opened Mkdir
  import opened Files

  // ---------------------------------------------------------------- directories stay listed

  /** Entry `e` names a live directory. */
  ghost predicate ListsDir(t: InodeTable, e: Entry) { Used(e) && LiveDir(t, e.inode) }

  ghost predicate DirKept(v: Volume, w: Volume, d: U32) {
    OpenDir(w.inodes, d) && forall i | 0 <= i < MAX_DIR_ENTRIES && ListsDir(v.inodes, Entries(v, d)[i]) ::
      Entries(w, d)[i] == Entries(v, d)[i]
  }

  /** Every directory is still there, and still lists the directories it listed, in the same slots. */
  ghost predicate DirsKept(v: Volume, w: Volume) {
    (forall i | LiveDir(v.inodes, i) :: LiveDir(w.inodes, i))
    && forall d | OpenDir(v.inodes, d) :: DirKept(v, w, d)
  }

  lemma DirsKeptTrans(u: Volume, v: Volume, w: Volume)
    requires DirsKept(u, v) && DirsKept(v, w)
    ensures DirsKept(u, w)
  {
    hide DecodeDir;
    forall d | OpenDir(u.inodes, d)
      ensures DirKept(u, w, d)
    {
      assert DirKept(u, v, d) && DirKept(v, w, d);
    }
  }

  lemma KeptDirsKept(v: Volume, w: Volume)
    requires forall i | Live(v.inodes, i) :: Kept(v, w, i)
    ensures DirsKept(v, w)
  {
    hide DecodeDir;
    forall i | LiveDir(v.inodes, i)
      ensures LiveDir(w.inodes, i)
    {
      assert Kept(v, w, i);
    }
    forall d: U32 | OpenDir(v.inodes, d)
      ensures DirKept(v, w, d)
    {
      KeptEntries(v, w, d);
    }
  }

  lemma AddEntryDirsKept(v: Volume, p: U32, name: Str, n: U32)
    requires Inv(v) && LiveDir(v.inodes, p) && Orphan(v, n) && v.inodes[n].parent == p && |name| < MAX_FILENAME
    ensures DirsKept(v, AddEntry(v, p, name, n).0)
  {
    hide DecodeDir, EncodeDir, AddEntry, FreeSlot, StrCpy;
    var w := AddEntry(v, p, name, n).0;
    AddEntryEffect(v, p, name, n);
    LastEntryUnused(ReadBlock(v, FirstBlock(v, p)));
    forall d: U32 | OpenDir(v.inodes, d)
      ensures DirKept(v, w, d)
    {
      assert NodeOk(v.inodes, d);
      if d != p {
        KeptEntries(v, w, d);
      }
    }
  }

  lemma RemoveEntryDirsKept(v: Volume, p: U32, f: U32)
    requires Inv(v) && OpenDir(v.inodes, p) && SlotOf(Entries(v, p), f) < MAX_DIR_ENTRIES && !LiveDir(v.inodes, f)
    ensures DirsKept(v, RemoveEntry(v, p, f))
  {
    hide DecodeDir, EncodeDir, RemoveEntry, SlotOf;
    var w := RemoveEntry(v, p, f);
    RemoveEntryEffect(v, p, f);
    LastEntryUnused(ReadBlock(v, FirstBlock(v, p)));
    forall d: U32 | OpenDir(v.inodes, d)
      ensures DirKept(v, w, d)
    {
      if d != p {
        KeptEntries(v, w, d);
      }
    }
  }

  lemma ListedDirsKept(v: Volume, u: Volume, p: U32, name: Str, n: U32)
    requires Inv(v) && Inv(u) && Grown(v, u, n) && Orphan(u, n) && LiveDir(v.inodes, p) && u.inodes[n].parent == p && |name| < MAX_FILENAME
    ensures DirsKept(v, SyncNodes(AddEntry(u, p, name, n).0))
  {
    hide DecodeDir, EncodeDir, AddEntry, SyncNodes;
    var x := AddEntry(u, p, name, n).0;
    GrownKept(v, u, n);
    KeptDirsKept(v, u);
    AddEntryDirsKept(u, p, name, n);
    DirsKeptTrans(v, u, x);
    SyncNodesFrame(x);
    MetadataWriteExtends(x, SyncNodes(x));
    KeptDirsKept(x, SyncNodes(x));
    DirsKeptTrans(v, x, SyncNodes(x));
  }

  lemma RollbackDirsKept(v: Volume, u: Volume, n: U32)
    requires Inv(v) && Grown(v, u, n) && NodeOk(u.inodes, n)
    ensures DirsKept(v, FreeInode(u, n))
  {
    hide DecodeDir, EncodeDir;
    GrownKept(v, u, n);
    ReleaseFromIs(u, n, 0);
    forall i | Live(v.inodes, i)
      ensures Kept(v, FreeInode(u, n), i)
    {
      assert Kept(v, u, i);
    }
    KeptDirsKept(v, FreeInode(u, n));
  }

  lemma MakeDirDirsKept(v: Volume, p: U32, name: Str)
    requires Inv(v) && p < MAX_INODES && |name| < MAX_FILENAME
    ensures DirsKept(v, MakeDir(v, p, name).0)
  {
    hide DecodeDir, EncodeDir, MakeDir, Prepared, SyncNodes, FreeInode, AddEntry, DirsKept;
    KeptDirsKept(v, v);
    if !LiveDir(v.inodes, p) {
      NotADir(v, p, name);
    } else {
      var (u, n, taken) := Prepared(v, p);
      PreparedKeeps(v, p);
      MakeDirIs(v, p, name);
      if n != NOT_FOUND {
        assert NodeOk(u.inodes, n);
        RollbackDirsKept(v, u, n);
        ListedDirsKept(v, u, p, name, n);
      }
    }
  }

  lemma StoreFileDirsKept(v: Volume, p: U32, name: Str, data: seq<Byte>)
    requires Inv(v) && LiveDir(v.inodes, p) && |name| < MAX_FILENAME && |data| <= MAX_FILE_SIZE
    ensures DirsKept(v, StoreFile(v, p, name, data).0)
  {
    hide DecodeDir, EncodeDir, StoreFile, Filled, SyncNodes, FreeInode, AddEntry, DirsKept;
    KeptDirsKept(v, v);
    var (u, n, stored) := Filled(v, p, data);
    FilledKeeps(v, p, data);
    StoreFileIs(v, p, name, data);
    if n != NOT_FOUND {
      assert NodeOk(u.inodes, n);
      RollbackDirsKept(v, u, n);
      ListedDirsKept(v, u, p, name, n);
      var x := SyncNodes(AddEntry(u, p, name, n).0);
      MetadataWriteExtends(x, SyncSuper(x));
      KeptDirsKept(x, SyncSuper(x));
      DirsKeptTrans(v, x, SyncSuper(x));
    }
  }

  lemma DiscardDirsKept(v: Volume, p: U32, f: U32)
    requires Inv(v) && OpenDir(v.inodes, p) && Live(v.inodes, f) && v.inodes[f].kind == FILE
    requires SlotOf(Entries(v, p), f) < MAX_DIR_ENTRIES
    ensures DirsKept(v, Discard(v, p, f))
  {
    hide DecodeDir, EncodeDir, RemoveEntry, FreeInode, SyncNodes, SlotOf, DirsKept;
    RemoveEntryDirsKept(v, p, f);
    RemoveEntryEffect(v, p, f);
    FreeThenRemove(v, p, f);
    var x, y := RemoveEntry(v, p, f), RemoveEntry(FreeInode(v, f), p, f);
    SyncNodesFrame(y);
    NotDirsKept(x, SyncNodes(y), f);
    DirsKeptTrans(v, x, SyncNodes(y));
  }

  lemma DeleteFileDirsKept(v: Volume, cs: Path)
    requires Inv(v)
    ensures DirsKept(v, DeleteFile(v, cs).0)
  {
    hide Discard, Walk, SlotOf, DirsKept, Inv, Lookup, DecodeDir;
    SelfDirsKept(v);
    if ResolvesToFile(v, cs) {
      FileIsListed(v, cs);
      DiscardDirsKept(v, Resolve(v, Parent(cs)), Resolve(v, cs));
    }
  }

  lemma NotDirsKept(x: Volume, w: Volume, f: U32)
    requires f < MAX_INODES && !LiveDir(x.inodes, f)
    requires forall i | 0 <= i < MAX_INODES && i != f :: w.inodes[i] == x.inodes[i]
    requires forall s | DATA_START_SECTOR <= s < DISK_SECTORS :: w.disk[s] == x.disk[s]
    ensures DirsKept(x, w)
  {
    hide DecodeDir;
  }

  /** No call ever removes or unlists a directory, whatever path it is given. */
  lemma {:induction false} CreateDirDirsKept(v: Volume, cs: Path)
    requires Inv(v)
    ensures DirsKept(v, CreateDir(v, cs).0)
    decreases |cs|, 0
  {
    hide MakeDir, Upkept, Inv, DirsKept, DecodeDir;
    SelfDirsKept(v);
    if Name(cs) != [] && |Name(cs)| < MAX_FILENAME && Resolve(v, cs) == NOT_FOUND {
      var (w, p) := EnsureDir(v, Parent(cs));
      EnsureDirUpkept(v, Parent(cs));
      EnsureDirDirsKept(v, Parent(cs));
      if p != NOT_FOUND {
        UpkeptInv(v, w);
        MakeDirDirsKept(w, p, Name(cs));
        DirsKeptTrans(v, w, MakeDir(w, p, Name(cs)).0);
      }
    }
  }

  lemma {:induction false} EnsureDirDirsKept(v: Volume, cs: Path)
    requires Inv(v)
    ensures DirsKept(v, EnsureDir(v, cs).0)
    decreases |cs|, 1
  {
    hide CreateDir, DirsKept;
    SelfDirsKept(v);
    CreateDirDirsKept(v, cs);
  }

  lemma SelfDirsKept(v: Volume)
    ensures DirsKept(v, v)
  {
    KeptDirsKept(v, v);
  }

  // ---------------------------------------------------------------- unique names

  ghost predicate Distinct(es: DirBlock) {
    forall i, j | 0 <= i < j < MAX_DIR_ENTRIES && Used(es[i]) && Used(es[j]) :: CStr(es[i].name) != CStr(es[j].name)
  }

  /** In every directory each name occurs once. */
  ghost predicate Unique(v: Volume) {
    forall d | OpenDir(v.inodes, d) :: Distinct(Entries(v, d))
  }

  /** An entry `name` added to directory `p` would reach the disk beside another of that name. */
  predicate Clashes(v: Volume, p: U32, name: Str) {
    && Searchable(v, p)
    && FreeSlot(Entries(v, p)) < 14
    && FindSlot(Entries(v, p), name) < MAX_DIR_ENTRIES
  }

  lemma DistinctInserted(es: DirBlock, name: Str, n: U32, r: DirBlock)
    requires FreeSlot(es) < MAX_DIR_ENTRIES && |name| < MAX_FILENAME && !Used(es[14]) && Distinct(es)
    requires var k := FreeSlot(es); ReadsBackAs(es[k := Entry(StrCpy(es[k].name, name), n, 1)], r)
    ensures Distinct(r) <==> FreeSlot(es) == 14 || FindSlot(es, name) == MAX_DIR_ENTRIES
  {
    hide FindSlot, FreeSlot, CStr, StrCpy;
    var k, s := FreeSlot(es), FindSlot(es, name);
    StrCpyRoundTrip(es[k].name, name);
    if k < 14 {
      assert Named(r[k], name);
      if s < MAX_DIR_ENTRIES {
        assert s != 14 && s != k && r[s] == es[s];
      } else {
        assert forall i | 0 <= i < MAX_DIR_ENTRIES && i != k && Used(r[i]) :: r[i] == es[i] && !Named(es[i], name);
      }
    }
  }

  lemma SameDirsUnique(v: Volume, w: Volume)
    requires Unique(v)
    requires forall d: U32 | OpenDir(w.inodes, d) :: Distinct(Entries(w, d)) || (OpenDir(v.inodes, d) && Entries(w, d) == Entries(v, d))
    ensures Unique(w)
  {
    hide DecodeDir, Distinct;
  }

  lemma DistinctAt(v: Volume, p: U32)
    requires Unique(v) && OpenDir(v.inodes, p)
    ensures Distinct(Entries(v, p))
  {
  }

  lemma FreshDistinct(t: InodeTable, n: nat, es: DirBlock)
    requires n < MAX_INODES && FreshDir(t, n, es)
    ensures Distinct(es)
  {
  }

  /** Listing a new inode keeps names unique exactly when the name does not clash. */
  lemma ListedUnique(v: Volume, u: Volume, p: U32, name: Str, n: U32)
    requires Inv(v) && Inv(u) && Grown(v, u, n) && Orphan(u, n) && LiveDir(v.inodes, p) && u.inodes[n].parent == p && |name| < MAX_FILENAME
    requires OpenDir(u.inodes, n) ==> FreshDir(u.inodes, n, Entries(u, n))
    requires Unique(v)
    ensures Unique(SyncNodes(AddEntry(u, p, name, n).0)) <==> !Clashes(v, p, name)
  {
    hide DecodeDir, EncodeDir, AddEntry, SyncNodes, Distinct, FindSlot, FreeSlot, StrCpy, CStr;
    var x := AddEntry(u, p, name, n).0;
    var w := SyncNodes(x);
    GrownKept(v, u, n);
    SameRoom(v, u, p, name);
    AddEntryEffect(u, p, name, n);
    SyncNodesFrame(x);
    MetadataWriteExtends(x, w);
    LastEntryUnused(ReadBlock(v, FirstBlock(v, p)));
    assert NodeOk(v.inodes, p);
    if Searchable(v, p) {
      assert OpenDir(v.inodes, p);
      DistinctInserted(Entries(v, p), name, n, Entries(x, p));
    }
    ListedOthers(v, u, p, name, n);
    if !Clashes(v, p, name) {
      SameDirsUnique(v, w);
    }
  }

  /** Directories other than the parent are as before, or fresh. */
  lemma ListedOthers(v: Volume, u: Volume, p: U32, name: Str, n: U32)
    requires Inv(v) && Inv(u) && Grown(v, u, n) && Orphan(u, n) && LiveDir(v.inodes, p) && u.inodes[n].parent == p && |name| < MAX_FILENAME
    requires OpenDir(u.inodes, n) ==> FreshDir(u.inodes, n, Entries(u, n))
    ensures var w := SyncNodes(AddEntry(u, p, name, n).0);
      && w.inodes == u.inodes
      && (OpenDir(w.inodes, n) ==> Distinct(Entries(w, n)))
      && (forall d: U32 | OpenDir(w.inodes, d) && d != p && d != n :: OpenDir(v.inodes, d) && Entries(w, d) == Entries(v, d))
      && (!Searchable(v, p) ==> Entries(w, p) == Entries(v, p))
  {
    hide DecodeDir, EncodeDir, AddEntry, SyncNodes, Distinct, FreeSlot, FindSlot, StrCpy, CStr, Roomy, Inv, ReadsBackAs;
    var x := AddEntry(u, p, name, n).0;
    var w := SyncNodes(x);
    GrownKept(v, u, n);
    SameRoom(v, u, p, name);
    AddEntryEffect(u, p, name, n);
    SyncNodesFrame(x);
    MetadataWriteExtends(x, w);
    assert Kept(u, x, n);
    KeptEntries(u, x, n);
    if OpenDir(u.inodes, n) {
      FreshDistinct(u.inodes, n, Entries(u, n));
    }
    forall d: U32 | OpenDir(w.inodes, d) && d != p && d != n
      ensures OpenDir(v.inodes, d) && Entries(w, d) == Entries(v, d)
    {
      KeptEntries(v, u, d);
      KeptEntries(u, x, d);
    }
  }
}
