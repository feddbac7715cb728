/** The free counters on disk: exactly which calls leave them stale, and which runs survive a reload with them right. */
module Counters {
  import opened Bytes
  import opened Layout
  import opened Paths
  import opened Volumes
  import opened Invariants
  import opened Isolation
  import opened Persistence
  import opened Growth
  import opened Directories
  import opened Mkdir
  import opened Files
  import opened Names
  import opened Uniqueness
  import opened Creation
  import opened Capacity
  import opened Installation
  import opened Writes
  import opened Crash
  import opened Sessions

  /** The stored superblock is the one in memory, counters included. */
  ghost predicate Current(v: Volume) { LoadSuper(v.disk) == v.sb }

  /** How far the stored counters are from the truth. */
  function Lag(v: Volume): Drift { DriftFrom(LoadSuper(v.disk), v.inodes, v.bitmap) }

  // ---------------------------------------------------------------- reloads

  /** After a reload the counters are off by what the stored ones were. */
  lemma ReloadDrift(v: Volume)
    requires Synced(v)
    ensures var r := Reload(v.disk); DriftOf(r) == Lag(v) && Lag(r) == Lag(v)
  {
    hide Reload, LoadSuper, ClearBits, FreeNodes, TableStored;
    var r := Reload(v.disk);
    ReloadSame(v);
    ReloadSuper(v.disk);
    SameFreeNodes(v.inodes, r.inodes, MAX_INODES);
  }

  /** A reload keeps right counters right exactly when they were stored. */
  lemma ReloadConserves(v: Volume)
    requires Synced(v) && Conserved(v)
    ensures Conserved(Reload(v.disk)) <==> Current(v)
  {
    hide Reload, LoadSuper, ClearBits, FreeNodes, TableStored;
    var r := Reload(v.disk);
    ReloadSame(v);
    ReloadSuper(v.disk);
    SameFreeNodes(v.inodes, r.inodes, MAX_INODES);
  }

  lemma DriftCounts(v: Volume, sb: Superblock)
    ensures DriftFrom(sb, v.inodes, v.bitmap) == Drift(0, 0) <==>
      sb.freeInodes == FreeNodes(v.inodes, MAX_INODES) && sb.freeBlocks == ClearBits(v.bitmap, MAX_BLOCKS)
  {
    hide ClearBits, FreeNodes;
    ZeroOff(sb.freeBlocks, ClearBits(v.bitmap, MAX_BLOCKS));
    ZeroOff(sb.freeInodes, FreeNodes(v.inodes, MAX_INODES));
  }

  // ---------------------------------------------------------------- one operation

  /** A directory that is made is not counted on disk. */
  lemma MakeDirCurrent(v: Volume, p: U32, name: Str)
    requires Inv(v) && Current(v) && p < MAX_INODES && |name| < MAX_FILENAME
    ensures var (w, ok) := MakeDir(v, p, name);
      Current(w) <==> !ok
  {
    hide MakeDir, LoadSuper;
    MakeDirCosts(v, p, name);
    SuperOfSector(v.disk, MakeDir(v, p, name).0.disk);
  }

  /** mkdir, on any path, leaves the stored counters current exactly when it makes nothing. */
  lemma CreateDirCurrent(v: Volume, cs: Path)
    requires Inv(v) && Conserved(v) && Current(v) && IsPath(cs)
    ensures Current(CreateDir(v, cs).0) <==> !Begins(v, cs)
  {
    hide CreateDir, LoadSuper, Conserved, Inv, Begins;
    CreateDirCosts(v, cs);
    SuperOfSector(v.disk, CreateDir(v, cs).0.disk);
  }

  /** Delete leaves them current exactly when there is nothing to delete. */
  lemma DeleteFileCurrent(v: Volume, cs: Path)
    requires Inv(v) && Conserved(v) && Current(v)
    ensures Current(DeleteFile(v, cs).0) <==> !ResolvesToFile(v, cs)
  {
    hide DeleteFile, LoadSuper, Conserved, Inv, Walk;
    if ResolvesToFile(v, cs) {
      DeleteGains(v, cs);
      SuperOfSector(v.disk, DeleteFile(v, cs).0.disk);
    } else {
      assert DeleteFile(v, cs).0 == v by { DeleteFileKeeps(v, cs); }
    }
  }

  /** Create stores the counters when it succeeds. When it fails, on any path, they stay current exactly when it made
      no parent and deleted no old file first. */
  lemma CreateFileCurrent(v: Volume, cs: Path, data: seq<Byte>)
    requires Inv(v) && Conserved(v) && v.bitmap[0] && SuperStored(v) && IsPath(cs)
    ensures var (w, ok) := CreateFile(v, cs, data);
      && (ok ==> Current(w))
      && (!ok && Current(v) ==>
            (Current(w) <==> !(Acceptable(cs, data) && (Begins(v, Parent(cs)) || ResolvesToFile(v, cs)))))
  {
    hide CreateFile, LoadSuper, Conserved, Inv, Walk, Begins, Ready, Upkept, DirsKept, StoreFile, Acceptable, Synced;
    var (w, ok) := CreateFile(v, cs, data);
    CreateFileKeeps(v, cs, data);
    CreateFileIs(v, cs, data);
    if !ok && Current(v) && Acceptable(cs, data) {
      AcceptableIs(cs, data);
      ReadyKeeps(v, cs);
      ReadyCosts(v, cs);
      var (r, p) := Ready(v, cs);
      SuperOfSector(v.disk, r.disk);
      if p != NOT_FOUND {
        UpkeptInv(v, r);
        UpkeptBit(v, r);
        UpkeptConserves(v, r);
        StoreFileFails(r, p, Name(cs), data);
        SuperOfSector(r.disk, w.disk);
      }
    }
  }

  /** A file that does not fit costs nothing in the end. */
  lemma StoreFileFails(v: Volume, p: U32, name: Str, data: seq<Byte>)
    requires Inv(v) && Conserved(v) && v.bitmap[0] && LiveDir(v.inodes, p) && |name| < MAX_FILENAME && |data| <= MAX_FILE_SIZE
    ensures var (w, ok) := StoreFile(v, p, name, data);
      !ok ==> w.sb == v.sb && w.disk[SUPERBLOCK_SECTOR] == v.disk[SUPERBLOCK_SECTOR] && SameNodes(v.inodes, w.inodes) && w.bitmap == v.bitmap
  {
    hide StoreFile, Filled, FreeInode, AddEntry, ClearBits, FreeNodes, SyncNodes, DecodeDir;
    var (w, ok) := StoreFile(v, p, name, data);
    var (u, n, stored) := Filled(v, p, data);
    FilledKeeps(v, p, data);
    StoreFileIs(v, p, name, data);
    StoreFileKeeps(v, p, name, data);
    if !ok && n != NOT_FOUND {
      assert NodeOk(u.inodes, n);
      RollbackRestores(v, u, n);
      NoMetadataBlocks(v, u, n);
      SameFreeNodes(v.inodes, w.inodes, MAX_INODES);
      assert Conserved(w) by { UpkeptConserves(v, w); }
    }
  }

  /** What happens to the counters before the new inode is allocated. */
  lemma ReadyCosts(v: Volume, cs: Path)
    requires Inv(v) && Conserved(v) && v.bitmap[0] && cs != [] && IsPath(cs)
    ensures var r := Ready(v, cs).0;
      && r.disk[SUPERBLOCK_SECTOR] == v.disk[SUPERBLOCK_SECTOR]
      && (r.sb == v.sb <==> !(Begins(v, Parent(cs)) || ResolvesToFile(v, cs)))
  {
    hide LoadSuper, Conserved, Inv, Walk, Begins, EnsureDir, DeleteFile, Upkept, Missing, Existing, DecodeDir;
    var ps := Parent(cs);
    var (u, p) := EnsureDir(v, ps);
    EnsureDirCosts(v, ps);
    EnsureDirUpkept(v, ps);
    UpkeptInv(v, u);
    UpkeptConserves(v, u);
    MissingNone(v, ps);
    WalkSplit(v, v.sb.rootInode, cs);
    if Missing(v, ps) == 0 {
      NothingBegins(v, ps);
    } else if p != NOT_FOUND {
      MadeThenFile(v, cs);
    }
    if p != NOT_FOUND && Resolve(u, cs) != NOT_FOUND {
      if ResolvesToFile(u, cs) {
        DeleteGains(u, cs);
      } else {
        assert DeleteFile(u, cs).0 == u by { DeleteFileKeeps(u, cs); }
      }
    }
    if Missing(v, ps) == 0 && ResolvesToFile(v, cs) {
      FileIsListed(v, cs);
    }
  }

  lemma NothingBegins(v: Volume, cs: Path)
    requires Resolve(v, cs) != NOT_FOUND
    ensures !Begins(v, cs)
  {
  }

  /** If the parents of `cs` had to be made and `cs` now names a file, `..` has led out of at least two of them. */
  lemma MadeThenFile(v: Volume, cs: Path)
    requires Inv(v) && v.bitmap[0] && cs != [] && IsPath(cs) && Missing(v, Parent(cs)) > 0 && EnsureDir(v, Parent(cs)).1 != NOT_FOUND
    ensures ResolvesToFile(EnsureDir(v, Parent(cs)).0, cs) ==> Missing(v, Parent(cs)) >= 2
  {
    hide Walk, Missing, CreateDir, Inv, DecodeDir;
    var ps, name := Parent(cs), Name(cs);
    MissingNone(v, ps);
    OnlyMissing(v, ps) by { RootFound(v); }
    if Missing(v, ps) == 1 {
      var (u, p) := EnsureDir(v, ps);
      LastMissingPlain(v, ps);
      CreateDirPlain(v, ps);
      EnsureDirUpkept(v, ps);
      UpkeptInv(v, u);
      WalkSplit(u, u.sb.rootInode, cs);
      if IsDot(name) {
        DotNamesDir(u, p, cs);
      } else {
        FreshIsRoomy(u, p, name);
      }
    }
  }

  lemma LastMissingPlain(v: Volume, cs: Path)
    requires cs != [] && Resolve(v, Parent(cs)) != NOT_FOUND
    ensures PlainTail(v, cs)
  {
    hide Walk, DecodeDir;
    forall k | 0 <= k < |cs|
      ensures Resolve(v, cs[..k]) != NOT_FOUND
    {
      PrefixResolves(v, v.sb.rootInode, Parent(cs), k);
      assert Parent(cs)[..k] == cs[..k];
    }
  }

  // ---------------------------------------------------------------- an example

  /** How many components the paths have in all. */
  function Total(paths: seq<Str>): nat { if paths == [] then 0 else |Comps(paths[0])| + Total(paths[1..]) }

  lemma {:induction false} MkDirsCost(v: Volume, paths: seq<Str>)
    requires Inv(v) && Conserved(v)
    ensures var w := MkDirs(v, paths);
      w.sb.freeInodes + Total(paths) >= v.sb.freeInodes && w.sb.freeBlocks + Total(paths) >= v.sb.freeBlocks
    decreases |paths|
  {
    hide CreateDir, Conserved, Inv, Upkept, Comps, Begins;
    if paths != [] {
      var w := CreateDir(v, Comps(paths[0])).0;
      CreateDirCosts(v, Comps(paths[0]));
      CreateDirUpkept(v, Comps(paths[0]));
      UpkeptInv(v, w);
      UpkeptConserves(v, w);
      MkDirsCost(w, paths[1..]);
    }
  }

  lemma StandardTotal(username: Str)
    ensures Total(StandardDirs(username)) == 10 + 3 * |Comps(username)|
  {
    hide Comps;
    CompsOfName(BIN);
    CompsOfName(HOME);
    CompsOfName(TMP);
    CompsOfName(ETC);
    CompsOfName(VAR);
    CompsConcat(ROOT + HOME + ROOT, username);
    CompsAfterSlash(UserHome(username), DOCUMENTS);
    CompsAfterSlash(UserHome(username), DOWNLOADS);
    TotalOfEight(StandardDirs(username));
  }

  lemma TotalOfEight(p: seq<Str>)
    requires |p| == 8
    ensures Total(p) == |Comps(p[0])| + |Comps(p[1])| + |Comps(p[2])| + |Comps(p[3])| + |Comps(p[4])| + |Comps(p[5])| + |Comps(p[6])| + |Comps(p[7])|
  {
    hide Comps, Total;
    TotalStep(p, 0);
    TotalStep(p, 1);
    TotalStep(p, 2);
    TotalStep(p, 3);
    TotalStep(p, 4);
    TotalStep(p, 5);
    TotalStep(p, 6);
    TotalStep(p, 7);
    assert p[0..] == p;
    assert Total(p[8..]) == 0 by { TotalOfNone(p[8..]); }
  }

  lemma TotalStep(p: seq<Str>, i: nat)
    requires i < |p|
    ensures Total(p[i..]) == |Comps(p[i])| + Total(p[i + 1..])
  {
    hide Comps;
    assert p[i..][1..] == p[i + 1..];
  }

  lemma TotalOfNone(p: seq<Str>)
    requires p == []
    ensures Total(p) == 0
  {
  }

  /** A new installation has inodes and blocks to spare. */
  lemma InstallLeaves(d: Disk, text: TextArea, username: Str)
    requires |Comps(username)| <= 60
    ensures var v := Install(d, text, username); v.sb.freeInodes > 0 && v.sb.freeBlocks > 0
  {
    hide Rooted, MkDirs, Inv, Conserved, Clean, StandardDirs, Comps, Total, Unique;
    RootedIs(d, text);
    StandardTotal(username);
    MkDirsCost(Rooted(d, text), StandardDirs(username));
  }

  /** One mkdir on a newly installed volume, here inside `/bin`: it succeeds, the counters in memory are right, and those
      that a reload finds are not. */
  lemma StaleAfterMkdir(d: Disk, text: TextArea, username: Str, name: Str)
    requires NoDots(Comps(username)) && |Comps(username)| <= 60 && IsComponent(name) && !IsDot(name) && |name| < MAX_FILENAME
    ensures var v := Install(d, text, username);
      var (w, ok) := CreateDir(v, [BIN, name]);
      ok && Current(v) && Conserved(w) && !Current(w) && !Conserved(Reload(w.disk))
  {
    hide Install, Walk, CreateDir, Inv, Conserved, Clean, LoadSuper, Synced, Upkept, Begins, Unique, Comps, Missing, Existing, Reload;
    var v, cs := Install(d, text, username), [BIN, name];
    InstallKeeps(d, text, username);
    InstallLeaves(d, text, username);
    var w := CreateDir(v, cs).0;
    InsideBin(v, name);
    CreateDirCurrent(v, cs);
    CreateDirUpkept(v, cs);
    UpkeptSynced(v, w);
    UpkeptConserves(v, w);
    ReloadConserves(w);
  }

  lemma UpkeptSynced(v: Volume, w: Volume)
    requires Upkept(v, w) && v.bitmap[0] && Synced(v)
    ensures Synced(w)
  {
  }

  lemma InsideBin(v: Volume, name: Str)
    requires Inv(v) && v.bitmap[0] && Conserved(v) && HollowBin(v) && v.sb.freeInodes > 0 && v.sb.freeBlocks > 0
    requires IsComponent(name) && !IsDot(name) && |name| < MAX_FILENAME
    ensures CreateDir(v, [BIN, name]).1 && Begins(v, [BIN, name])
  {
    hide Walk, CreateDir, Inv, Conserved, Missing, Existing, AllFit;
    var cs, bin := [BIN, name], Resolve(v, [BIN]);
    assert Parent(cs) == [BIN] && Name(cs) == name && cs[..1] == [BIN] && cs[..0] == [];
    RootFound(v);
    WalkSplit(v, v.sb.rootInode, cs);
    assert Resolve(v, cs) == NOT_FOUND;
    assert PlainTail(v, cs);
    MissingStep(v, cs);
    AllThere(v, [BIN]);
    NamesThere(v, [BIN]);
    CreateDirSucceeds(v, cs);
  }

  // ---------------------------------------------------------------- whatever the counters

  lemma {:induction false} CreateDirStored(v: Volume, cs: Path)
    requires Inv(v)
    ensures CreateDir(v, cs).0.disk[SUPERBLOCK_SECTOR] == v.disk[SUPERBLOCK_SECTOR]
    decreases |cs|, 0
  {
    hide MakeDir, Upkept, Inv, Walk;
    if Name(cs) != [] && |Name(cs)| < MAX_FILENAME && Resolve(v, cs) == NOT_FOUND {
      var (w, p) := EnsureDir(v, Parent(cs));
      EnsureDirStored(v, Parent(cs));
      EnsureDirUpkept(v, Parent(cs));
      if p != NOT_FOUND {
        UpkeptInv(v, w);
        MakeDirCosts(w, p, Name(cs));
      }
    }
  }

  lemma {:induction false} EnsureDirStored(v: Volume, cs: Path)
    requires Inv(v)
    ensures EnsureDir(v, cs).0.disk[SUPERBLOCK_SECTOR] == v.disk[SUPERBLOCK_SECTOR]
    decreases |cs|, 1
  {
    hide CreateDir, Walk;
    CreateDirStored(v, cs);
  }

  lemma DeleteFileStored(v: Volume, cs: Path)
    requires Inv(v)
    ensures DeleteFile(v, cs).0.disk[SUPERBLOCK_SECTOR] == v.disk[SUPERBLOCK_SECTOR]
  {
    hide DecodeDir, EncodeDir, SlotOf, Walk, RemoveEntry, SyncNodes, FreeInode, Inv;
    if ResolvesToFile(v, cs) {
      FileIsListed(v, cs);
      var p, f := Resolve(v, Parent(cs)), Resolve(v, cs);
      RemoveEntryEffect(v, p, f);
      FreeThenRemove(v, p, f);
      SyncNodesFrame(RemoveEntry(FreeInode(v, f), p, f));
    }
  }

  lemma StoreFileStored(v: Volume, p: U32, name: Str, data: seq<Byte>)
    requires Inv(v) && LiveDir(v.inodes, p) && |name| < MAX_FILENAME && |data| <= MAX_FILE_SIZE
    ensures var (w, ok) := StoreFile(v, p, name, data); !ok ==> w.disk[SUPERBLOCK_SECTOR] == v.disk[SUPERBLOCK_SECTOR]
  {
    hide StoreFile, Filled, FreeInode, AddEntry, SyncNodes, DecodeDir;
    var (u, n, stored) := Filled(v, p, data);
    FilledKeeps(v, p, data);
    StoreFileIs(v, p, name, data);
    if n != NOT_FOUND {
      assert NodeOk(u.inodes, n);
      RollbackKept(v, u, n);
      NoMetadataBlocks(v, u, n);
    }
  }

  lemma CreateFileStored(v: Volume, cs: Path, data: seq<Byte>)
    requires Inv(v)
    ensures var (w, ok) := CreateFile(v, cs, data); !ok ==> w.disk[SUPERBLOCK_SECTOR] == v.disk[SUPERBLOCK_SECTOR]
  {
    hide CreateFile, StoreFile, EnsureDir, DeleteFile, Upkept, DirsKept, Inv, Walk;
    CreateFileIs(v, cs, data);
    if Acceptable(cs, data) {
      var (u, p) := EnsureDir(v, Parent(cs));
      EnsureDirStored(v, Parent(cs));
      EnsureDirUpkept(v, Parent(cs));
      UpkeptInv(v, u);
      DeleteFileStored(u, cs);
      ReadyKeeps(v, cs);
      UpkeptInv(v, Ready(v, cs).0);
      if Ready(v, cs).1 != NOT_FOUND {
        StoreFileStored(Ready(v, cs).0, p, Name(cs), data);
      }
    }
  }

  /** Every sector a delete writes lies behind the superblock. */
  lemma CutStored(v: Volume, cs: Path, k: nat)
    requires Inv(v) && Synced(v)
    ensures LoadSuper(AfterCut(v, cs, k).disk) == LoadSuper(v.disk)
  {
    hide DeleteWrites, Apply, LoadSuper, Inv, Synced, CutDisk, FreeInode, RemoveEntry, Walk;
    var ws := DeleteWrites(v, cs);
    var c := if k < |ws| then k else |ws|;
    assert ws[..|ws|] == ws;
    if !ResolvesToFile(v, cs) || c == 0 {
      NothingWritten(v, cs, c);
    } else {
      FileIsListed(v, cs);
      var p, f := Resolve(v, Parent(cs)), Resolve(v, cs);
      var j, finished := CutAfter(v, cs, c);
      DirWriteIs(v, p, f);
      CutSuper(RemoveEntry(FreeInode(v, f), p, f).disk, Apply(v.disk, ws[..c]), v, p, f, j, finished);
    }
  }

  lemma NothingWritten(v: Volume, cs: Path, c: nat)
    requires c <= |DeleteWrites(v, cs)| && (!ResolvesToFile(v, cs) || c == 0)
    ensures Apply(v.disk, DeleteWrites(v, cs)[..c]) == v.disk
  {
    hide Walk, NodeWrites, Apply;
    if !ResolvesToFile(v, cs) {
      NothingToDelete(v, cs);
    }
    assert DeleteWrites(v, cs)[..c] == [];
    ApplyNone(v.disk);
  }

  lemma CutSuper(x: Disk, e: Disk, v: Volume, p: U32, f: U32, j: nat, finished: bool)
    requires p < MAX_INODES && f < MAX_INODES && x[SUPERBLOCK_SECTOR] == v.disk[SUPERBLOCK_SECTOR]
    requires var y := RemoveEntry(FreeInode(v, f), p, f); CutDisk(x, e, y.inodes, v.bitmap, y.bitmap, j, finished)
    ensures LoadSuper(e) == LoadSuper(v.disk)
  {
    hide FreeInode, RemoveEntry, PartSynced, BitmapSector;
    SuperOfSector(v.disk, e);
  }

  // ---------------------------------------------------------------- whole runs

  /** The only operation that stores the counters. */
  predicate Saves(v: Volume, op: Op) { op.Write? && CreateFile(v, Comps(op.path), op.data).1 }

  /** The volume right after the last successful create of the run, or at its start. */
  function LastSaved(s: Session, ops: seq<Op>, saved: Volume): Volume
    decreases |ops|
  {
    if ops == [] then saved
    else
      var t := Perform(s, ops[0]);
      LastSaved(t, ops[1..], if Saves(s.fs, ops[0]) then t.fs else saved)
  }

  lemma PerformStored(s: Session, op: Op)
    requires Inv(s.fs) && s.fs.bitmap[0] && Synced(s.fs)
    ensures var w := Perform(s, op).fs;
      if Saves(s.fs, op) then Current(w) else LoadSuper(w.disk) == LoadSuper(s.fs.disk)
  {
    hide CreateDir, CreateFile, DeleteFile, LoadSuper, Inv, AfterCut, LoadTable, LoadBitmap, TableStored;
    var v, w := s.fs, Perform(s, op).fs;
    match op {
      case MkDir(path) =>
        CreateDirStored(v, Comps(path));
        SuperOfSector(v.disk, w.disk);
      case Write(path, data) =>
        CreateFileKeeps(v, Comps(path), data);
        CreateFileStored(v, Comps(path), data);
        if !Saves(v, op) {
          SuperOfSector(v.disk, w.disk);
        }
      case Remove(path) =>
        DeleteFileStored(v, Comps(path));
        SuperOfSector(v.disk, w.disk);
      case ChangeTo(path) =>
      case Reboot =>
      case CutRemove(path, k) =>
        CutStored(v, Comps(path), k);
    }
  }

  /** In every run, reloads and interrupted deletes included, the stored superblock is that of the last save. */
  lemma {:induction false} StoredIsLastSaved(s: Session, ops: seq<Op>, saved: Volume)
    requires Inv(s.fs) && s.fs.bitmap[0] && Synced(s.fs) && LoadSuper(s.fs.disk) == saved.sb
    ensures LoadSuper(Run(s, ops).fs.disk) == LastSaved(s, ops, saved).sb
    decreases |ops|
  {
    hide Perform, Inv, Synced, LoadSuper, Saves, Clean, DriftOf;
    if ops != [] {
      var t := Perform(s, ops[0]);
      PerformKeeps(s, ops[0]);
      PerformStored(s, ops[0]);
      StoredIsLastSaved(t, ops[1..], if Saves(s.fs, ops[0]) then t.fs else saved);
    }
  }

  lemma {:induction false} RunSplit(s: Session, pre: seq<Op>, post: seq<Op>)
    ensures Run(s, pre + post) == Run(Run(s, pre), post)
    decreases |pre|
  {
    hide Perform;
    if pre == [] {
      assert pre + post == post;
    } else {
      assert (pre + post)[0] == pre[0] && (pre + post)[1..] == pre[1..] + post;
      RunSplit(Perform(s, pre[0]), pre[1..], post);
    }
  }

  /** Conservation past reloads, exactly: after any run and a reboot, and for as long as no further reload happens, the
      counters are right if and only if those in memory at the last successful create before the reboot, or at
      installation, were as many free inodes and clear bits as there are at the reboot. */
  lemma ConservationAfterReboot(d: Disk, text: TextArea, username: Str, pre: seq<Op>, post: seq<Op>)
    requires NoReloads(post)
    ensures var s := Start(d, text, username);
      var v, saved := Run(s, pre).fs, LastSaved(s, pre, s.fs);
      Conserved(Run(s, pre + [Reboot] + post).fs) <==>
        saved.sb.freeInodes == FreeNodes(v.inodes, MAX_INODES) && saved.sb.freeBlocks == ClearBits(v.bitmap, MAX_BLOCKS)
  {
    hide Run, Install, Synced, Conserved, Inv, Clean, DriftOf, LoadSuper, Reload, LastSaved, FreeNodes, ClearBits;
    var s := Start(d, text, username);
    InstallKeeps(d, text, username);
    RunKeeps(s, pre);
    StoredIsLastSaved(s, pre, s.fs);
    var a := Run(s, pre);
    var b := a.(fs := Reload(a.fs.disk));
    RebootKeeps(a.fs);
    ReloadDrift(a.fs);
    DriftCounts(a.fs, LoadSuper(a.fs.disk));
    assert pre + [Reboot] + post == pre + ([Reboot] + post);
    RunSplit(s, pre, [Reboot] + post);
    RebootFirst(a, post);
    RunKeeps(b, post);
    NoDrift(Run(b, post).fs);
  }

  lemma RebootFirst(a: Session, post: seq<Op>)
    ensures Run(a, [Reboot] + post) == Run(a.(fs := Reload(a.fs.disk)), post)
  {
    hide Reload;
    assert ([Reboot] + post)[0] == Reboot && ([Reboot] + post)[1..] == post;
  }

  /** In particular, of a run without earlier reloads: exactly when there are as many free inodes and clear bits as at
      the last successful create, or at installation. */
  lemma ConservationAfterFirstReboot(d: Disk, text: TextArea, username: Str, pre: seq<Op>, post: seq<Op>)
    requires NoReloads(pre) && NoReloads(post)
    ensures var s := Start(d, text, username);
      var v, saved := Run(s, pre).fs, LastSaved(s, pre, s.fs);
      Conserved(Run(s, pre + [Reboot] + post).fs) <==>
        && FreeNodes(v.inodes, MAX_INODES) == FreeNodes(saved.inodes, MAX_INODES)
        && ClearBits(v.bitmap, MAX_BLOCKS) == ClearBits(saved.bitmap, MAX_BLOCKS)
  {
    hide Run, Install, Inv, Synced, Clean, DriftOf, LoadSuper, LastSaved, FreeNodes, ClearBits;
    var s := Start(d, text, username);
    InstallKeeps(d, text, username);
    SavedConserved(s, pre, s.fs);
    ConservationAfterReboot(d, text, username, pre, post);
  }

  lemma {:induction false} SavedConserved(s: Session, ops: seq<Op>, saved: Volume)
    requires Inv(s.fs) && s.fs.bitmap[0] && Synced(s.fs) && Conserved(s.fs) && Conserved(saved) && NoReloads(ops)
    ensures Conserved(LastSaved(s, ops, saved))
    decreases |ops|
  {
    hide Perform, Inv, Synced, Conserved, Saves, Clean, DriftOf;
    if ops != [] {
      var t := Perform(s, ops[0]);
      PerformKeeps(s, ops[0]);
      NoDrift(s.fs);
      NoDrift(t.fs);
      SavedConserved(t, ops[1..], if Saves(s.fs, ops[0]) then t.fs else saved);
    }
  }
}
