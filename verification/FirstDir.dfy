/** The smallest volume on which block 0 has been given away: the root directory and `/bin`. */
module FirstDir {
  import opened Bytes
  import opened Layout
  import opened Paths
  import opened Volumes
  import opened Invariants
  import opened Isolation
  import opened Persistence
  import opened Growth
  import opened Directories
  import opened Mkdir
  import opened Files
  import opened Names
  import opened Uniqueness
  import opened Deletion
  import opened Creation
  import opened Capacity
  import opened Installation
  import opened Sessions
  import opened Writes
  import opened Crash
  import opened Listing
  import opened Torn

  /** The smallest volume on which block 0 has been given away. */
  function WithBin(d: Disk, text: TextArea): Volume { CreateDir(Rooted(d, text), [BIN]).0 }

  /** It satisfies everything the operations keep; a plain name other than `bin` is missing from its root and would fit;
      and inode 2 is the next to be handed out. */
  lemma WithBinIs(d: Disk, text: TextArea, name: Str)
    requires IsComponent(name) && !IsDot(name) && name != BIN && |name| < MAX_FILENAME
    ensures var v := WithBin(d, text);
      && Settled(v) && Unique(v) && Conserved(v) && SuperStored(v) && HollowBin(v)
      && Searchable(v, 0) && FreeSlot(Entries(v, 0)) == 3 && FreeSlot(Entries(v, 0), 4) == 4 && Roomy(v, 0, name) && Step(v, 0, name) == NOT_FOUND
      && FirstFree(v.inodes, 0) == 2 && v.sb.rootInode == 0
      && v.sb == BareSuper(text).(freeInodes := MAX_INODES - 2, freeBlocks := MAX_BLOCKS - 2)
  {
    hide DecodeDir, CreateDir, Unique, HollowBin, Upkept, Rooted, Inv, Synced, Clean, Conserved, Roomy, Step, FreeSlot, MakeDir, SuperStored;
    var r := Rooted(d, text);
    var v := CreateDir(r, [BIN]).0;
    RootedIs(d, text);
    BinTakesBlockZero(d, text);
    RootedFresh(r);
    FirstMkdirIs(r);
    FirstDirLeaves(r, name);
    FirstDirSynced(r);
    UpkeptFacts(r, v);
  }

  lemma UpkeptFacts(v: Volume, w: Volume)
    requires Upkept(v, w) && Conserved(v) && Clean(v)
    ensures Inv(w) && Conserved(w) && Clean(w) && (SuperStored(v) ==> SuperStored(w))
  {
    hide Conserved;
    SteadyConserves(v, w);
  }

  lemma RootedFresh(r: Volume)
    requires Inv(r) && Searchable(r, 0) && FreshDir(r.inodes, 0, Entries(r, 0))
    ensures Step(r, 0, BIN) == NOT_FOUND && LiveDir(r.inodes, 0) && r.sb.rootInode == 0
  {
    hide DecodeDir;
    FreshIsRoomy(r, 0, BIN);
  }

  /** The first mkdir goes through, so its nodes are written. */
  lemma FirstDirSynced(r: Volume)
    requires Inv(r) && !r.bitmap[0] && r.inodes[1].kind == FREE && r.inodes[2].kind == FREE && LiveDir(r.inodes, 0) && SuperStored(r)
    ensures var w := MakeDir(r, 0, BIN).0; Synced(w) && FirstFree(w.inodes, 0) == 2
  {
    hide DecodeDir, EncodeDir, MakeDir, Prepared, SyncNodes, AddEntry, FreeInode, SuperStored;
    var (u, n, taken) := Prepared(r, 0);
    PreparedKeeps(r, 0);
    FirstPrepared(r);
    MakeDirIs(r, 0, BIN);
    ListedKeeps(r, u, 0, BIN, n);
    ListedDisk(r, u, 0, BIN, n);
    assert n == 1 by { FirstInode(r); }
    var t := MakeDir(r, 0, BIN).0.inodes;
    assert t[0].kind == DIR && t[1].kind == DIR && t[2].kind == FREE;
  }

  lemma FirstInode(r: Volume)
    requires r.inodes[0].kind == DIR && r.inodes[1].kind == FREE && !r.bitmap[0]
    ensures Prepared(r, 0).1 == 1
  {
    hide DecodeDir, EncodeDir;
    assert FirstFree(r.inodes, 0) == 1;
  }

  /** The first mkdir leaves room in the root for any other name, and takes one inode and one block. */
  lemma FirstDirLeaves(r: Volume, name: Str)
    requires Inv(r) && !r.bitmap[0] && r.inodes[1].kind == FREE && Searchable(r, 0)
    requires FreshDir(r.inodes, 0, Entries(r, 0)) && r.sb.freeInodes > 0 && r.sb.freeBlocks > 0
    requires !IsDot(name) && name != BIN
    ensures var v := MakeDir(r, 0, BIN).0;
      && Step(v, 0, name) == NOT_FOUND && Roomy(v, 0, name) && Searchable(v, 0) && FreeSlot(Entries(v, 0)) == 3 && FreeSlot(Entries(v, 0), 4) == 4
      && v.sb == r.sb.(freeInodes := r.sb.freeInodes - 1, freeBlocks := r.sb.freeBlocks - 1)
  {
    hide DecodeDir, EncodeDir, MakeDir, Prepared, SyncNodes, AddEntry, FreeInode, FreeSlot, FindSlot, StrCpy, CStr;
    var (u, n, taken) := Prepared(r, 0);
    PreparedKeeps(r, 0);
    FirstPrepared(r);
    FirstCounts(r);
    MakeDirIs(r, 0, BIN);
    GrownKept(r, u, n);
    KeptEntries(r, u, 0);
    ListedEntries(u, 0, BIN, n);
    ListedSuper(u, 0, BIN, n);
    var v := MakeDir(r, 0, BIN).0;
    BesideBin(r.inodes, Entries(r, 0), Entries(v, 0), n, name);
  }

  /** A directory that lists only `bin` has room for any other name. */
  lemma BesideBin(t: InodeTable, es: DirBlock, r: DirBlock, n: U32, name: Str)
    requires FreshDir(t, 0, es) && !IsDot(name) && name != BIN
    requires FreeSlot(es) == 2 ==> ReadsBackAs(es[2 := Entry(StrCpy(es[2].name, BIN), n, 1)], r)
    ensures FreeSlot(es) == 2 && FreeSlot(r) == 3 && FreeSlot(r, 4) == 4 && FindSlot(r, name) == MAX_DIR_ENTRIES
  {
    hide FreeSlot, FindSlot, StrCpy, CStr;
    assert Used(es[0]) && Used(es[1]) && !Used(es[2]) && !Used(es[3]);
    assert FreeSlot(es) == 2;
    StrCpyRoundTrip(es[2].name, BIN);
    assert r[0] == es[0] && r[1] == es[1] && Named(r[2], BIN);
    assert forall i | 3 <= i < 14 :: r[i] == es[i];
    assert FreeSlot(r) == 3;
    assert !Used(r[4]);
    assert forall i | 0 <= i < MAX_DIR_ENTRIES :: !Named(r[i], name);
  }

  lemma FirstCounts(r: Volume)
    requires r.inodes[0].kind == DIR && r.inodes[1].kind == FREE && !r.bitmap[0] && r.sb.freeInodes > 0 && r.sb.freeBlocks > 0
    ensures Prepared(r, 0).0.sb == r.sb.(freeInodes := r.sb.freeInodes - 1, freeBlocks := r.sb.freeBlocks - 1)
  {
    hide DecodeDir, EncodeDir;
    assert FirstFree(r.inodes, 0) == 1 && FirstClear(r.bitmap, 0) == 0;
  }

  lemma ListedSuper(u: Volume, p: U32, name: Str, n: U32)
    requires |name| < MAX_FILENAME
    ensures SyncNodes(AddEntry(u, p, name, n).0).sb == u.sb
  {
    hide DecodeDir, EncodeDir, StoreNodes;
  }
}
