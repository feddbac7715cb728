/** `fs_install`: the first volume, from which every run starts. */
module Installation {
  import opened Bytes
  import opened Layout
  import opened Paths
  import opened Volumes
  import opened Invariants
  import opened Isolation
  import opened Persistence
  import opened Growth
  import opened Directories
  import opened Mkdir
  import opened Files
  import opened Names
  import opened Uniqueness

  const BIN: Str := [98, 105, 110]
  const HOME: Str := [104, 111, 109, 101]
  const TMP: Str := [116, 109, 112]
  const ETC: Str := [101, 116, 99]
  const VAR: Str := [118, 97, 114]
  const DOCUMENTS: Str := [100, 111, 99, 117, 109, 101, 110, 116, 115]
  const DOWNLOADS: Str := [100, 111, 119, 110, 108, 111, 97, 100, 115]

  function UserHome(username: Str): Str { ROOT + HOME + ROOT + username }

  function BareNode(i: nat): Inode {
    if i == 0 then Inode(DIR, 0, NoBlocks()[0 := 1], 0) else FreshInode()
  }

  function BareTable(): InodeTable {
    seq<Inode>(MAX_INODES, i requires 0 <= i < MAX_INODES => BareNode(i))
  }

  function NoBits(): Bitmap { seq<bool>(MAX_BLOCKS, b => false) }

  function BareSuper(text: TextArea): Superblock {
    Superblock(FS_MAGIC, FS_VERSION, MAX_INODES, MAX_BLOCKS, MAX_INODES - 1, MAX_BLOCKS - 1, 0, 1, text)
  }

  /** The volume with nothing but a root directory, before anything but its block is on disk. */
  function Bare(d: Disk, text: TextArea): Volume {
    Volume(BareSuper(text), BareTable(), NoBits()[1 := true], d[DATA_START_SECTOR + 1 := EncodeDir(NewDir(0, 0))])
  }

  /** The root directory synced and loaded back. */
  function Rooted(d: Disk, text: TextArea): Volume { Reload(SyncNodes(SyncSuper(Bare(d, text))).disk) }

  function MkDirs(v: Volume, paths: seq<Str>): Volume
    decreases |paths|
  {
    if paths == [] then v else MkDirs(CreateDir(v, Comps(paths[0])).0, paths[1..])
  }

  function StandardDirs(username: Str): seq<Str> {
    [ROOT + BIN, ROOT + HOME, ROOT + TMP, ROOT + ETC, ROOT + VAR,
     UserHome(username), UserHome(username) + ROOT + DOCUMENTS, UserHome(username) + ROOT + DOWNLOADS]
  }

  function Install(d: Disk, text: TextArea, username: Str): Volume {
    SyncNodes(SyncSuper(MkDirs(Rooted(d, text), StandardDirs(username))))
  }

  // ---------------------------------------------------------------- the bare volume

  lemma {:induction false} NoBitsSet(n: nat)
    requires n <= MAX_BLOCKS
    ensures ClearBits(NoBits(), n) == n
  {
    if n > 0 {
      NoBitsSet(n - 1);
    }
  }

  lemma {:induction false} BareNodesFree(n: nat)
    requires 1 <= n <= MAX_INODES
    ensures FreeNodes(BareTable(), n) == n - 1
  {
    if n > 1 {
      BareNodesFree(n - 1);
    }
  }

  lemma BareConserved(d: Disk, text: TextArea)
    ensures Conserved(Bare(d, text))
  {
    NoBitsSet(MAX_BLOCKS);
    ClearBitsUpdate(NoBits(), 1, true, MAX_BLOCKS);
    BareNodesFree(MAX_INODES);
  }

  lemma BareInv(d: Disk, text: TextArea)
    ensures Inv(Bare(d, text)) && Unique(Bare(d, text)) && !Bare(d, text).bitmap[0]
    ensures FreshDir(BareTable(), 0, Entries(Bare(d, text), 0))
  {
    hide DecodeDir, EncodeDir;
    var v := Bare(d, text);
    var t := BareTable();
    assert forall i | 0 <= i < MAX_INODES :: t[i] == BareNode(i) && (i > 0 ==> t[i].kind == FREE);
    assert t[0].blocks[0] == 1 && forall j | 1 <= j < DIRECT_BLOCKS :: t[0].blocks[j] == 0;
    assert forall i, j, b | b != 0 && Holds(t, i, j, b) :: i == 0 && j == 0 && b == 1;
    assert Holds(t, 0, 0, 1);
    var depth := seq<nat>(MAX_INODES, i => 0);
    assert DepthOk(t, depth);
    NewDirIsFresh(t, 0, 0);
    assert Entries(v, 0) == DecodeDir(EncodeDir(NewDir(0, 0)));
    FreshDistinct(t, 0, Entries(v, 0));
  }

  lemma BareTidy(d: Disk, text: TextArea)
    ensures Tidy(Bare(d, text))
  {
    BareTableFacts();
    var t := BareTable();
    assert t[0].blocks[0] == 1;
    assert Holds(t, 0, 0, 1);
    assert forall b | 0 < b < MAX_BLOCKS && Bare(d, text).bitmap[b] :: b == 1;
  }

  /** Syncing and loading back the bare volume changes nothing but the disk. */
  lemma RootedIs(d: Disk, text: TextArea)
    ensures var r := Rooted(d, text);
      && Inv(r) && Conserved(r) && Clean(r) && Unique(r) && SuperStored(r) && Searchable(r, 0)
      && !r.bitmap[0] && FreshDir(r.inodes, 0, Entries(r, 0))
      && r.inodes[1].kind == FREE && r.inodes[2].kind == FREE
      && r.sb == BareSuper(text) && r.sb.freeInodes == MAX_INODES - 1 && r.sb.freeBlocks == MAX_BLOCKS - 1
  {
    hide DecodeDir, EncodeDir, Reload, BitmapSector, SuperSector, LoadSuper, Inv, Unique, Bare, BareTable, Tidy, BlankStored, DriftOf;
    var v := Bare(d, text);
    BareInv(d, text);
    BareTidy(d, text);
    BareConserved(d, text);
    BareTableFacts();
    var u := SyncSuper(v);
    SuperRoundTrip(u.disk, v.sb);
    MetadataWriteKeeps(v, u);
    MetadataWriteExtends(v, u);
    var w := SyncNodes(u);
    SyncNodesSyncs(u);
    SyncNodesFrame(u);
    MetadataWriteKeeps(u, w);
    MetadataWriteExtends(u, w);
    SuperOfSector(u.disk, w.disk);
    ReloadSame(w);
    TidySyncs(u);
    ReloadClean(w);
    var r := Reload(w.disk);
    assert r.sb == v.sb by { ReloadSuper(w.disk); }
    BareSame(w.inodes, r.inodes);
    SyncedFrame(w, r);
    SameNodesInv(w, r);
    SameNodesUnique(v, w, r);
  }

  lemma BareTableFacts()
    ensures BareTable()[0] == BareNode(0) && forall i | 1 <= i < MAX_INODES :: BareTable()[i] == FreshInode()
    ensures forall d, text :: Bare(d, text).inodes == BareTable() && Bare(d, text).sb == BareSuper(text)
  {
  }

  lemma ReloadSuper(d: Disk)
    ensures Reload(d).sb == LoadSuper(d)
  {
  }

  lemma BareSame(t: InodeTable, r: InodeTable)
    requires SameNodes(t, r) && t == BareTable()
    ensures r[0] == t[0] && FreeNodes(r, MAX_INODES) == FreeNodes(t, MAX_INODES)
    ensures forall i | 1 <= i < MAX_INODES :: r[i].kind == FREE
  {
    BareTableFacts();
    assert SameNode(t[0], r[0]);
    forall i | 1 <= i < MAX_INODES
      ensures r[i].kind == FREE
    {
      assert SameNode(t[i], r[i]);
    }
    SameFreeNodes(t, r, MAX_INODES);
  }

  lemma SameNodesUnique(v: Volume, w: Volume, r: Volume)
    requires Unique(v) && w == v.(disk := w.disk) && SameNodes(w.inodes, r.inodes) && r.disk == w.disk
    requires forall i: U32 :: Entries(w, i) == Entries(v, i)
    ensures Unique(r) && forall d: U32 | LiveDir(r.inodes, d) :: Entries(r, d) == Entries(v, d)
  {
    hide DecodeDir, Distinct;
    forall d: U32 | LiveDir(r.inodes, d)
      ensures Entries(r, d) == Entries(v, d) && (OpenDir(r.inodes, d) ==> OpenDir(v.inodes, d))
    {
      assert SameNode(w.inodes[d], r.inodes[d]);
    }
    SameDirsUnique(v, r);
  }

  // ---------------------------------------------------------------- the first directory

  lemma CompsOfName(w: Str)
    requires IsComponent(w)
    ensures Comps(ROOT + w) == [w] && Comps(ROOT + w + ROOT) == [w]
  {
    CompsSnoc([], SLASH);
    CompsAppendWord(ROOT, w);
    CompsSnoc(ROOT + w, SLASH);
  }

  /** `/bin` is a directory without a block: nothing can be listed in it. */
  ghost predicate HollowBin(v: Volume) {
    ResolvesToDir(v, [BIN]) && FirstBlock(v, Resolve(v, [BIN])) == 0
  }

  /** The very first allocation hands out block 0, the number that also means "no block". */
  lemma BinTakesBlockZero(d: Disk, text: TextArea)
    ensures var v := Rooted(d, text); var w := CreateDir(v, [BIN]).0;
      && Upkept(v, w) && w.bitmap[0] && Unique(w) && HollowBin(w)
  {
    hide DecodeDir, EncodeDir, MakeDir, Unique, Roomy, Rooted, FindSlot, FreeSlot, HollowBin, Walk, Lookup, Clashes, CreateDir;
    var v := Rooted(d, text);
    RootedIs(d, text);
    CreateDirUpkept(v, [BIN]);
    FreshIsRoomy(v, 0, BIN);
    FirstMkdirIs(v);
    MakeDirUnique(v, 0, BIN);
    MissingDoesNotClash(v, 0, BIN);
    FirstMakeDir(v);
  }

  lemma FirstMkdirIs(v: Volume)
    requires v.sb.rootInode == 0 && Step(v, 0, BIN) == NOT_FOUND
    ensures CreateDir(v, [BIN]) == MakeDir(v, 0, BIN)
  {
    hide MakeDir, DecodeDir, Lookup;
    WalkSplit(v, 0, [BIN]);
    assert Parent([BIN]) == [];
  }

  lemma BinResolves(w: Volume, n: U32)
    requires w.sb.rootInode == 0 && Step(w, 0, BIN) == n && n < MAX_INODES && w.inodes[n].kind == DIR && w.inodes[n].blocks[0] == 0
    ensures HollowBin(w)
  {
    hide DecodeDir, Lookup;
    WalkSplit(w, 0, [BIN]);
    assert Parent([BIN]) == [];
  }

  lemma FirstMakeDir(v: Volume)
    requires Inv(v) && !v.bitmap[0] && v.inodes[1].kind == FREE && Roomy(v, 0, BIN)
    ensures var w := MakeDir(v, 0, BIN).0; w.bitmap[0] && HollowBin(w)
  {
    hide DecodeDir, EncodeDir, MakeDir, Prepared, SyncNodes, AddEntry, FreeInode, Roomy, Lookup;
    var (u, n, taken) := Prepared(v, 0);
    PreparedKeeps(v, 0);
    FirstPrepared(v);
    MakeDirIs(v, 0, BIN);
    GrownKept(v, u, n);
    SameRoom(v, u, 0, BIN);
    ListedResult(u, 0, BIN, n);
    MakeDirKeeps(v, 0, BIN);
    BinResolves(MakeDir(v, 0, BIN).0, n);
  }

  lemma FirstPrepared(v: Volume)
    requires !v.bitmap[0] && v.inodes[1].kind == FREE
    ensures var (u, n, taken) := Prepared(v, 0); n != NOT_FOUND && taken && FirstClear(v.bitmap, 0) == 0
  {
    hide DecodeDir, EncodeDir;
    assert FirstFree(v.inodes, 0) <= 1;
  }

  // ---------------------------------------------------------------- the rest

  ghost predicate NoDots(cs: Path) { forall i | 0 <= i < |cs| :: !IsDot(cs[i]) }

  lemma {:induction false} MkDirsUpkept(v: Volume, paths: seq<Str>)
    requires Inv(v)
    ensures Upkept(v, MkDirs(v, paths))
    decreases |paths|
  {
    hide CreateDir, Upkept, Inv;
    if paths == [] {
      UpkeptRefl(v);
    } else {
      var w := CreateDir(v, Comps(paths[0])).0;
      CreateDirUpkept(v, Comps(paths[0]));
      UpkeptInv(v, w);
      MkDirsUpkept(w, paths[1..]);
      UpkeptTrans(v, w, MkDirs(w, paths[1..]));
    }
  }

  lemma {:induction false} MkDirsPlain(v: Volume, paths: seq<Str>)
    requires Inv(v) && v.bitmap[0] && Unique(v)
    requires forall i | 0 <= i < |paths| :: NoDots(Comps(paths[i]))
    ensures Unique(MkDirs(v, paths)) && Extends(v, MkDirs(v, paths), {})
    decreases |paths|
  {
    hide CreateDir, Upkept, Unique, Extends, Inv;
    if paths == [] {
      AllKeptExtends(v, v);
    } else {
      var cs := Comps(paths[0]);
      var w := CreateDir(v, cs).0;
      assert NoDots(Comps(paths[0]));
      CreateDirUpkept(v, cs);
      UpkeptInv(v, w);
      UpkeptBit(v, w);
      CreateDirKeepsUnique(v, cs);
      CreateDirPlain(v, cs);
      MkDirsPlain(w, paths[1..]);
      ExtendsThen(v, w, MkDirs(w, paths[1..]), {});
    }
  }

  lemma PlainWord(w: Str)
    requires IsComponent(w) && !IsDot(w)
    ensures NoDots(Comps(ROOT + w))
  {
    CompsOfName(w);
  }

  lemma PlainChild(h: Str, w: Str)
    requires NoDots(Comps(h)) && IsComponent(w) && !IsDot(w)
    ensures NoDots(Comps(h + ROOT + w))
  {
    CompsAfterSlash(h, w);
  }

  lemma PlainHome(username: Str)
    requires NoDots(Comps(username))
    ensures NoDots(Comps(UserHome(username)))
  {
    CompsOfName(HOME);
    CompsConcat(ROOT + HOME + ROOT, username);
  }

  lemma StandardDirsPlain(username: Str)
    requires NoDots(Comps(username))
    ensures var paths := StandardDirs(username);
      (forall i | 0 <= i < |paths| :: NoDots(Comps(paths[i]))) && |paths| == 8 && paths[0] == ROOT + BIN
  {
    hide Comps, NoDots, UserHome;
    PlainWord(BIN);
    PlainWord(HOME);
    PlainWord(TMP);
    PlainWord(ETC);
    PlainWord(VAR);
    PlainHome(username);
    PlainChild(UserHome(username), DOCUMENTS);
    PlainChild(UserHome(username), DOWNLOADS);
  }

  lemma MkDirsFirst(v: Volume, username: Str)
    ensures var paths := StandardDirs(username);
      && |paths| > 0 && paths[0] == ROOT + BIN
      && MkDirs(v, paths) == MkDirs(CreateDir(v, [BIN]).0, paths[1..])
  {
    hide CreateDir, UserHome;
    CompsOfName(BIN);
  }

  lemma HollowBinKept(v: Volume, w: Volume, gone: set<int>)
    requires Inv(v) && Extends(v, w, gone) && HollowBin(v)
    ensures HollowBin(w)
  {
    hide Walk;
    ResolveLands(v, [BIN]);
    ResolveKept(v, w, gone, [BIN]);
    assert NodeKept(v, w, Resolve(v, [BIN]));
  }

  /** The installed volume satisfies everything the operations keep, and the disk holds all of it, counters included. */
  lemma InstallKeeps(d: Disk, text: TextArea, username: Str)
    ensures var v := Install(d, text, username);
      && Inv(v) && v.bitmap[0] && Conserved(v) && Clean(v) && Synced(v) && LoadSuper(v.disk) == v.sb
      && (NoDots(Comps(username)) ==> Unique(v) && HollowBin(v))
  {
    hide Rooted, CreateDir, Upkept, Unique, Extends, Inv, HollowBin, LoadSuper, BitmapSector, SuperSector, Conserved, Clean, MkDirs,
      StandardDirs, Comps, NoDots;
    var v := Rooted(d, text);
    var paths := StandardDirs(username);
    RootedIs(d, text);
    BinTakesBlockZero(d, text);
    MkDirsFirst(v, username);
    var u := CreateDir(v, [BIN]).0;
    UpkeptInv(v, u);
    var w := MkDirs(u, paths[1..]);
    MkDirsUpkept(u, paths[1..]);
    UpkeptTrans(v, u, w);
    UpkeptBit(u, w);
    WrapUp(v, w);
    if NoDots(Comps(username)) {
      StandardDirsPlain(username);
      MkDirsPlain(u, paths[1..]);
      HollowBinKept(u, w, {});
      HollowBinKept(w, SyncNodes(SyncSuper(w)), {});
      SyncedUnique(w);
    }
  }

  lemma WrapUp(v: Volume, w: Volume)
    requires Upkept(v, w) && Conserved(v) && Clean(v) && SuperStored(v) && w.bitmap[0]
    ensures var x := SyncNodes(SyncSuper(w));
      && Inv(w) && Inv(x) && x.bitmap[0] && Conserved(x) && Clean(x) && Synced(x) && LoadSuper(x.disk) == x.sb && Extends(w, x, {})
  {
    hide LoadSuper, BitmapSector, SuperSector, TableSector, DecodeDir, Inv, Tidy, BlankStored, DriftOf, Conserved, TableStored;
    var u := SyncSuper(w);
    var x := SyncNodes(u);
    SuperRoundTrip(u.disk, w.sb);
    MetadataWriteKeeps(w, u);
    SyncNodesSyncs(u);
    SyncNodesFrame(u);
    MetadataWriteKeeps(u, x);
    MetadataWriteExtends(w, x);
    SuperOfSector(u.disk, x.disk);
    TidySyncs(u);
    SteadyConserves(v, w);
    SteadyConserves(w, u);
    SteadyConserves(u, x);
  }

  lemma SyncedUnique(w: Volume)
    requires Unique(w)
    ensures Unique(SyncNodes(SyncSuper(w)))
  {
    hide DecodeDir, Distinct, SuperSector;
    var x := SyncNodes(SyncSuper(w));
    SyncNodesFrame(SyncSuper(w));
    MetadataWriteExtends(w, x);
    SameDirsUnique(w, x);
  }
}
