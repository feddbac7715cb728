/** `fs_create_file` over whole paths: what it keeps, what reading gives back, when it goes wrong. */
module Creation {
  import opened Bytes
  import opened Layout
  import opened Paths
  import opened Volumes
  import opened Invariants
  import opened Isolation
  import opened Persistence
  import opened Growth
  import opened Directories
  import opened Mkdir
  import opened Files
  import opened Names
  import opened Uniqueness
  import opened Deletion

  /** The name and size checks that come before anything else. */
  predicate Acceptable(cs: Path, data: seq<Byte>) {
    |data| <= MAX_FILE_SIZE && Name(cs) != [] && |Name(cs)| < MAX_FILENAME
  }

  /** The volume and parent inode at the moment the new inode is allocated; no parent when the call gave up. */
  function Ready(v: Volume, cs: Path): (Volume, U32) {
    var (u, p) := EnsureDir(v, Parent(cs));
    if p == NOT_FOUND || KindOf(u, p) != DIR then (u, NOT_FOUND)
    else (if Resolve(u, cs) != NOT_FOUND then DeleteFile(u, cs).0 else u, p)
  }

  lemma CreateFileIs(v: Volume, cs: Path, data: seq<Byte>)
    ensures CreateFile(v, cs, data) ==
      if !Acceptable(cs, data) then (v, false)
      else if Ready(v, cs).1 == NOT_FOUND then (Ready(v, cs).0, false)
      else StoreFile(Ready(v, cs).0, Ready(v, cs).1, Name(cs), data)
  {
    hide StoreFile, EnsureDir, DeleteFile;
  }

  // ---------------------------------------------------------------- whatever the path

  lemma ReadyKeeps(v: Volume, cs: Path)
    requires Inv(v)
    ensures var (r, p) := Ready(v, cs);
      Upkept(v, r) && DirsKept(v, r) && (p != NOT_FOUND ==> LiveDir(r.inodes, p))
  {
    hide EnsureDir, DeleteFile, Upkept, DirsKept, Extends, Inv;
    var (u, p) := EnsureDir(v, Parent(cs));
    EnsureDirUpkept(v, Parent(cs));
    EnsureDirDirsKept(v, Parent(cs));
    UpkeptInv(v, u);
    if p != NOT_FOUND && KindOf(u, p) == DIR && Resolve(u, cs) != NOT_FOUND {
      var r := DeleteFile(u, cs).0;
      DeleteFileKeeps(u, cs);
      DeleteFileDirsKept(u, cs);
      UpkeptTrans(v, u, r);
      DirsKeptTrans(v, u, r);
      DirsKeptLive(u, r, p);
    }
  }

  lemma DirsKeptLive(v: Volume, w: Volume, p: U32)
    requires DirsKept(v, w) && LiveDir(v.inodes, p)
    ensures LiveDir(w.inodes, p)
  {
  }

  /** Creating keeps the invariant and every directory, and on success leaves disk and memory in step, counters included. */
  lemma CreateFileKeeps(v: Volume, cs: Path, data: seq<Byte>)
    requires Inv(v)
    ensures var (w, ok) := CreateFile(v, cs, data);
      && Upkept(v, w) && DirsKept(v, w)
      && (ok && SuperStored(v) ==> Synced(w) && LoadSuper(w.disk) == w.sb)
  {
    hide CreateFile, Ready, StoreFile, DirsKept, Extends, LoadSuper, Synced, Inv;
    CreateFileIs(v, cs, data);
    UpkeptRefl(v);
    SelfDirsKept(v);
    if Acceptable(cs, data) {
      ReadyKeeps(v, cs);
      var (r, p) := Ready(v, cs);
      if p != NOT_FOUND {
        UpkeptInv(v, r);
        StoreFileKeeps(r, p, Name(cs), data);
        StoreFileDirsKept(r, p, Name(cs), data);
        UpkeptTrans(v, r, StoreFile(r, p, Name(cs), data).0);
        DirsKeptTrans(v, r, StoreFile(r, p, Name(cs), data).0);
      }
    }
  }

  // ---------------------------------------------------------------- paths that name no directory

  /** The inode an existing file gives up when it is replaced. */
  function Replaced(v: Volume, cs: Path): set<int> {
    if ResolvesToFile(v, cs) then {Resolve(v, cs)} else {}
  }

  /** Whether the entry of the new file will reach the disk. */
  predicate HasRoom(v: Volume, cs: Path) {
    || Resolve(v, Parent(cs)) == NOT_FOUND
    || ResolvesToFile(v, cs)
    || Roomy(v, Resolve(v, Parent(cs)), Name(cs))
  }

  lemma ReadyPlain(v: Volume, cs: Path)
    requires Inv(v) && v.bitmap[0] && Unique(v) && PlainTail(v, cs) && !ResolvesToDir(v, cs)
    requires Name(cs) != [] && |Name(cs)| < MAX_FILENAME
    ensures var (r, p) := Ready(v, cs);
      && Unique(r) && Extends(v, r, Replaced(v, cs))
      && (p != NOT_FOUND ==>
            && Resolve(r, Parent(cs)) == p && Step(r, p, Name(cs)) == NOT_FOUND
            && !Shadows(r, p, Name(cs)) && !Clashes(r, p, Name(cs))
            && (Roomy(r, p, Name(cs)) <==> HasRoom(v, cs)))
  {
    hide EnsureDir, DecodeDir, Unique, Extends, Roomy, Shadows, Clashes;
    var ps, name := Parent(cs), Name(cs);
    AllKeptExtends(v, v);
    WalkSplit(v, v.sb.rootInode, cs);
    ResolveLands(v, ps);
    ResolveLands(v, cs);
    if Resolve(v, ps) == NOT_FOUND {
      ReadyMadeParent(v, cs);
    } else {
      assert EnsureDir(v, ps) == (v, Resolve(v, ps)) by { EnsureExisting(v, ps); }
      var p := Resolve(v, ps);
      if Resolve(v, cs) == NOT_FOUND {
        MissingDoesNotShadow(v, p, name);
        MissingDoesNotClash(v, p, name);
      } else {
        FileOrDir(v, Resolve(v, cs));
        FileIsListed(v, cs);
        ReadyReplacing(v, cs);
      }
    }
  }

  lemma EnsureExisting(v: Volume, ps: Path)
    requires Resolve(v, ps) != NOT_FOUND
    ensures EnsureDir(v, ps) == (v, Resolve(v, ps))
  {
  }

  lemma FileOrDir(v: Volume, i: U32)
    requires Inv(v) && Live(v.inodes, i)
    ensures v.inodes[i].kind == FILE || v.inodes[i].kind == DIR
  {
    assert NodeOk(v.inodes, i);
  }

  lemma ReadyMadeParent(v: Volume, cs: Path)
    requires Inv(v) && v.bitmap[0] && Unique(v) && PlainTail(v, cs) && cs != [] && |Name(cs)| < MAX_FILENAME
    requires Resolve(v, Parent(cs)) == NOT_FOUND
    ensures var (r, p) := Ready(v, cs);
      && Unique(r) && Extends(v, r, {})
      && (p != NOT_FOUND ==>
            && Resolve(r, Parent(cs)) == p && Step(r, p, Name(cs)) == NOT_FOUND
            && !Shadows(r, p, Name(cs)) && !Clashes(r, p, Name(cs)) && Roomy(r, p, Name(cs)))
  {
    hide EnsureDir, DecodeDir, Unique, Extends, Roomy, Shadows, Clashes;
    var ps, name := Parent(cs), Name(cs);
    WalkSplit(v, v.sb.rootInode, cs);
    EnsureDirPlain(v, cs);
    EnsureDirUpkept(v, ps);
    EnsureDirKeepsUnique(v, cs);
    var (u, p) := EnsureDir(v, ps);
    if p != NOT_FOUND {
      WalkSplit(u, u.sb.rootInode, cs);
      MissingDoesNotClash(u, p, name);
    }
  }

  lemma ReadyReplacing(v: Volume, cs: Path)
    requires Inv(v) && v.bitmap[0] && Unique(v) && ResolvesToFile(v, cs) && |Name(cs)| < MAX_FILENAME
    ensures var (r, p) := Ready(v, cs);
      && Unique(r) && Extends(v, r, {Resolve(v, cs)})
      && p == Resolve(v, Parent(cs)) && Resolve(r, Parent(cs)) == p && Step(r, p, Name(cs)) == NOT_FOUND
      && !Shadows(r, p, Name(cs)) && !Clashes(r, p, Name(cs)) && Roomy(r, p, Name(cs))
  {
    hide EnsureDir, DecodeDir, Unique, Extends, DeleteFile, SlotOf, FreeSlot, FindSlot, Inv, Walk;
    var ps := Parent(cs);
    FileIsListed(v, cs);
    EnsureExisting(v, ps);
    DeleteFileKeeps(v, cs);
    DeleteFileUnique(v, cs);
    ResolveKept(v, DeleteFile(v, cs).0, {Resolve(v, cs)}, ps);
    ReplacedRoom(v, cs);
  }

  /** The slot of the old file is free for the new one. */
  lemma ReplacedRoom(v: Volume, cs: Path)
    requires Inv(v) && Unique(v) && ResolvesToFile(v, cs) && |Name(cs)| < MAX_FILENAME
    ensures var r, p, name := DeleteFile(v, cs).0, Resolve(v, Parent(cs)), Name(cs);
      Step(r, p, name) == NOT_FOUND && Roomy(r, p, name) && !Shadows(r, p, name) && !Clashes(r, p, name)
  {
    hide DecodeDir, Unique, DeleteFile, SlotOf, FreeSlot, FindSlot, Cleared, Distinct, Walk;
    var p, r := Resolve(v, Parent(cs)), DeleteFile(v, cs).0;
    DeleteFileEntries(v, cs);
    DistinctAt(v, p);
    ClearedRoom(Entries(v, p), Resolve(v, cs), SlotOf(Entries(v, p), Resolve(v, cs)), Entries(r, p), Name(cs));
    assert NodeOk(v.inodes, p);
  }

  /** Isolation of create: every path to another inode and the bytes of every other file stay as they were. */
  lemma CreateFileExtends(v: Volume, cs: Path, data: seq<Byte>)
    requires Inv(v) && v.bitmap[0] && Unique(v) && PlainTail(v, cs) && !ResolvesToDir(v, cs)
    ensures var w := CreateFile(v, cs, data).0;
      Extends(v, w, Replaced(v, cs)) && Unique(w)
  {
    hide CreateFile, Ready, StoreFile, Extends, Inv, Unique, Shadows, Clashes, Roomy, DecodeDir;
    CreateFileIs(v, cs, data);
    if Acceptable(cs, data) {
      ReadyPlain(v, cs);
      ReadyKeeps(v, cs);
      var (r, p) := Ready(v, cs);
      if p != NOT_FOUND {
        UpkeptInv(v, r);
        StoreFileKeeps(r, p, Name(cs), data);
        StoreFileUnique(r, p, Name(cs), data);
        ExtendsThen(v, r, StoreFile(r, p, Name(cs), data).0, Replaced(v, cs));
      }
    } else {
      SelfExtends(v, cs);
    }
  }

  lemma SelfExtends(v: Volume, cs: Path)
    requires Inv(v)
    ensures Extends(v, v, Replaced(v, cs))
  {
    hide DecodeDir;
    AllKeptExtends(v, v);
    ResolveLands(v, cs);
    forall i: U32, nm | LiveDir(v.inodes, i)
      ensures StepKept(v, v, i, nm, Replaced(v, cs))
    {
      assert StepKept(v, v, i, nm, {});
    }
  }

  /** Round trip: a successful create is read back, size and bytes, exactly when its entry had room; otherwise the
      path does not resolve at all. */
  lemma CreateReadRoundTrip(v: Volume, cs: Path, data: seq<Byte>, max: U32)
    requires Inv(v) && v.bitmap[0] && Unique(v) && PlainTail(v, cs) && !ResolvesToDir(v, cs)
    ensures var (w, ok) := CreateFile(v, cs, data);
      ok ==> ReadFile(w, cs, max) == if HasRoom(v, cs) then (|data|, data[..Delivered(|data|, max)]) else (-1, [])
  {
    hide CreateFile, Ready, StoreFile, Extends, Inv, Unique, Shadows, Clashes, Roomy, DecodeDir, Contents, Walk, HasRoom, PlainTail, Step;
    CreateFileIs(v, cs, data);
    var (w, ok) := CreateFile(v, cs, data);
    if ok {
      ReadyPlain(v, cs);
      ReadyKeeps(v, cs);
      var (r, p) := Ready(v, cs);
      UpkeptInv(v, r);
      UpkeptBit(v, r);
      StoreFileKeeps(r, p, Name(cs), data);
      StoreFileResult(r, p, Name(cs), data);
      ResolveKept(r, w, {}, Parent(cs));
      WalkSplit(w, w.sb.rootInode, cs);
    }
  }

  // ---------------------------------------------------------------- exactly when names stay unique

  lemma OverDir(v: Volume, cs: Path)
    requires ResolvesToDir(v, cs)
    ensures DeleteFile(v, cs) == (v, false)
  {
  }

  /** A file created over a directory whose parent has a free slot: the name now occurs twice. */
  lemma CreateOverDirClashes(v: Volume, cs: Path, data: seq<Byte>)
    requires Inv(v) && v.bitmap[0] && Unique(v) && ResolvesToDir(v, cs)
    ensures var (w, ok) := CreateFile(v, cs, data);
      ok ==> (Unique(w) <==> !Clashes(v, Resolve(v, Parent(cs)), Name(cs)))
  {
    hide CreateFile, StoreFile, DecodeDir, Unique, Clashes, EnsureDir, DeleteFile;
    CreateFileIs(v, cs, data);
    if CreateFile(v, cs, data).1 {
      WalkSplit(v, v.sb.rootInode, cs);
      EnsureExisting(v, Parent(cs));
      OverDir(v, cs);
      ReadyKeeps(v, cs);
      StoreFileUnique(v, Resolve(v, Parent(cs)), Name(cs), data);
    }
  }

  lemma CreateBelowDotsClashes(v: Volume, cs: Path, data: seq<Byte>)
    requires Inv(v) && v.bitmap[0] && Unique(v) && !PlainTail(v, cs)
    ensures var (w, ok) := CreateFile(v, cs, data);
      ok ==> !Unique(w)
  {
    hide CreateFile, StoreFile, DecodeDir, Unique, EnsureDir, DeleteFile, Doubled, DirsKept, Inv, Upkept, FindSlot, FreeSlot;
    var k :| 0 <= k < |cs| && Resolve(v, cs[..k]) == NOT_FOUND && IsDot(cs[k]);
    var w := CreateFile(v, cs, data).0;
    CreateFileIs(v, cs, data);
    if CreateFile(v, cs, data).1 {
      ReadyKeeps(v, cs);
      var (u, p) := EnsureDir(v, Parent(cs));
      EnsureDirUpkept(v, Parent(cs));
      UpkeptInv(v, u);
      EnsureDirDoubles(v, cs, k);
      if Doubled(u) {
        ReadyDirsKept(u, cs, p, data);
        DoubledStays(u, w);
        DoubledIsNotUnique(w);
      } else {
        DotNamesDir(u, p, cs);
        OverDir(u, cs);
        EnsureKeepsUnique(v, Parent(cs));
        StoreFileUnique(u, p, Name(cs), data);
      }
    }
  }

  lemma EnsureKeepsUnique(v: Volume, ps: Path)
    requires Inv(v) && v.bitmap[0] && Unique(v) && PlainTail(v, ps)
    ensures Unique(EnsureDir(v, ps).0)
  {
    hide CreateDir, Unique;
    CreateDirKeepsUnique(v, ps);
  }

  lemma ReadyDirsKept(u: Volume, cs: Path, p: U32, data: seq<Byte>)
    requires Inv(u) && LiveDir(u.inodes, p) && Acceptable(cs, data)
    ensures var r := if Resolve(u, cs) != NOT_FOUND then DeleteFile(u, cs).0 else u;
      DirsKept(u, StoreFile(r, p, Name(cs), data).0)
  {
    hide StoreFile, DeleteFile, DirsKept, Upkept, Inv, Extends;
    var r := if Resolve(u, cs) != NOT_FOUND then DeleteFile(u, cs).0 else u;
    SelfDirsKept(u);
    DeleteFileKeeps(u, cs);
    DeleteFileDirsKept(u, cs);
    UpkeptRefl(u);
    UpkeptInv(u, r);
    DirsKeptLive(u, r, p);
    StoreFileDirsKept(r, p, Name(cs), data);
    DirsKeptTrans(u, r, StoreFile(r, p, Name(cs), data).0);
  }

  lemma DotNamesDir(u: Volume, p: U32, cs: Path)
    requires Inv(u) && Fresh(u, p) && cs != [] && IsDot(Name(cs)) && Resolve(u, Parent(cs)) == p
    ensures ResolvesToDir(u, cs) && Clashes(u, p, Name(cs))
  {
    hide DecodeDir, FindSlot, FreeSlot, CStr;
    WalkSplit(u, u.sb.rootInode, cs);
    var es := Entries(u, p);
    assert NodeOk(u.inodes, p);
    assert !Used(es[2]);
    assert Named(es[0], SELF) && Named(es[1], UP);
  }

  /** A successful create keeps names unique exactly when no component below the existing part is `.` or `..`
      and the path does not name a directory beside which the new entry fits. */
  lemma CreateFileUnique(v: Volume, cs: Path, data: seq<Byte>)
    requires Inv(v) && v.bitmap[0] && Unique(v)
    ensures var (w, ok) := CreateFile(v, cs, data);
      ok ==> (Unique(w) <==>
        PlainTail(v, cs) && !(ResolvesToDir(v, cs) && Clashes(v, Resolve(v, Parent(cs)), Name(cs))))
  {
    hide CreateFile, Unique, Clashes, Extends, Inv;
    if !PlainTail(v, cs) {
      CreateBelowDotsClashes(v, cs, data);
    } else if ResolvesToDir(v, cs) {
      CreateOverDirClashes(v, cs, data);
    } else {
      CreateFileExtends(v, cs, data);
    }
  }

  /** A successful create leaves every other path and file alone exactly when it does not put a file in front of a
      directory of the same name. */
  lemma CreateFileIsolation(v: Volume, cs: Path, data: seq<Byte>)
    requires Inv(v) && v.bitmap[0] && Unique(v) && PlainTail(v, cs)
    ensures var (w, ok) := CreateFile(v, cs, data);
      ok ==> (Extends(v, w, Replaced(v, cs)) <==>
        !(ResolvesToDir(v, cs) && Shadows(v, Resolve(v, Parent(cs)), Name(cs))))
  {
    hide CreateFile, StoreFile, DecodeDir, EnsureDir, DeleteFile, Unique, Roomy, Inv, Walk;
    if !ResolvesToDir(v, cs) {
      CreateFileExtends(v, cs, data);
    } else if CreateFile(v, cs, data).1 {
      CreateFileIs(v, cs, data);
      var p, name, w := Resolve(v, Parent(cs)), Name(cs), CreateFile(v, cs, data).0;
      EnsureExisting(v, Parent(cs)) by { WalkSplit(v, v.sb.rootInode, cs); }
      OverDir(v, cs);
      ReadyKeeps(v, cs);
      StoreFileKeeps(v, p, name, data);
      if Shadows(v, p, name) {
        StoreFileResult(v, p, name, data);
        WalkSplit(v, v.sb.rootInode, cs);
        ResolveLands(v, cs);
        assert !StepKept(v, w, p, name, {});
      }
    }
  }

  // ---------------------------------------------------------------- what a failed call leaves

  /** A file that does not fit leaves everything live as it was, and no inode more. */
  lemma StoreFileUndone(v: Volume, p: U32, name: Str, data: seq<Byte>)
    requires Inv(v) && LiveDir(v.inodes, p) && |name| < MAX_FILENAME && |data| <= MAX_FILE_SIZE
    ensures var (w, ok) := StoreFile(v, p, name, data);
      !ok ==>
        && Extends(v, w, {}) && (forall i | Live(v.inodes, i) :: Kept(v, w, i))
        && (forall i | 0 <= i < MAX_INODES && v.inodes[i].kind == FREE :: w.inodes[i].kind == FREE)
  {
    hide StoreFile, Filled, FreeInode, AddEntry, SyncNodes, SyncSuper, DecodeDir, ReleaseFrom;
    var (u, n, stored) := Filled(v, p, data);
    FilledKeeps(v, p, data);
    StoreFileIs(v, p, name, data);
    if n == NOT_FOUND {
      AllKeptExtends(v, v);
    } else if !stored {
      var w := FreeInode(u, n);
      assert NodeOk(u.inodes, n);
      GrownKept(v, u, n);
      RolledBack(u, n);
      forall i | Live(v.inodes, i)
        ensures Kept(v, w, i)
      {
        assert Kept(v, u, i);
      }
      AllKeptExtends(v, w);
    }
  }

  lemma RolledBack(u: Volume, n: U32)
    requires n < MAX_INODES && forall k | 0 <= k < DIRECT_BLOCKS :: u.inodes[n].blocks[k] < MAX_BLOCKS
    ensures var w := FreeInode(u, n);
      && w.disk == u.disk && w.sb.rootInode == u.sb.rootInode && w.inodes[n].kind == FREE
      && forall i | 0 <= i < MAX_INODES && i != n :: w.inodes[i] == u.inodes[i]
  {
    ReleaseFromIs(u, n, 0);
  }

  /** A failed create leaves every path and file as it was exactly when there was no old file to replace, or the name or
      the size was refused. Otherwise the old file is gone: it was deleted before the new one was found not to fit. */
  lemma CreateFileFails(v: Volume, cs: Path, data: seq<Byte>)
    requires Inv(v) && v.bitmap[0] && Unique(v) && PlainTail(v, cs)
    ensures var (w, ok) := CreateFile(v, cs, data);
      !ok ==>
        && (Extends(v, w, {}) <==> !(Acceptable(cs, data) && ResolvesToFile(v, cs)))
        && (Acceptable(cs, data) && ResolvesToFile(v, cs) ==> Resolve(w, cs) == NOT_FOUND)
  {
    hide CreateFile, Ready, StoreFile, Extends, Inv, Unique, Shadows, Clashes, Roomy, DecodeDir, Upkept, DirsKept, Walk, Step, EnsureDir, DeleteFile;
    var (w, ok) := CreateFile(v, cs, data);
    CreateFileIs(v, cs, data);
    AllKeptExtends(v, v);
    if !ok && Acceptable(cs, data) {
      var (r, p) := Ready(v, cs);
      ReadyKeeps(v, cs);
      UpkeptInv(v, r);
      if p != NOT_FOUND {
        StoreFileUndone(r, p, Name(cs), data);
      } else {
        AllKeptExtends(r, r);
      }
      if ResolvesToFile(v, cs) {
        LostFile(v, cs, w);
      } else if ResolvesToDir(v, cs) {
        ReadyOverDir(v, cs);
      } else {
        ReadyPlain(v, cs);
        ExtendsThen(v, r, w, {});
      }
    }
  }

  lemma ReadyOverDir(v: Volume, cs: Path)
    requires Inv(v) && ResolvesToDir(v, cs) && cs != []
    ensures Ready(v, cs).0 == v
  {
    hide EnsureDir, DeleteFile, Walk, DecodeDir;
    WalkSplit(v, v.sb.rootInode, cs);
    EnsureExisting(v, Parent(cs));
    OverDir(v, cs);
  }

  lemma LostFile(v: Volume, cs: Path, w: Volume)
    requires Inv(v) && v.bitmap[0] && Unique(v) && ResolvesToFile(v, cs) && |Name(cs)| < MAX_FILENAME
    requires var r := Ready(v, cs).0;
      && Inv(r) && Extends(r, w, {}) && (forall i | Live(r.inodes, i) :: Kept(r, w, i))
      && (forall i | 0 <= i < MAX_INODES && r.inodes[i].kind == FREE :: w.inodes[i].kind == FREE)
    ensures !Extends(v, w, {}) && Resolve(w, cs) == NOT_FOUND
  {
    hide EnsureDir, DecodeDir, Unique, DeleteFile, Walk, Step, Roomy, Shadows, Clashes;
    var r, f, p := Ready(v, cs).0, Resolve(v, cs), Resolve(v, Parent(cs));
    ReadyReplacing(v, cs);
    FileIsListed(v, cs);
    ResolveLands(r, Parent(cs));
    EnsureExisting(v, Parent(cs));
    DeleteFileKeeps(v, cs);
    assert r == DeleteFile(v, cs).0 by { ReadyDeletes(v, cs); }
    GoneIsNotKept(v, w, f);
    ResolveKept(r, w, {}, Parent(cs));
    KeptEntries(r, w, p);
    WalkSplit(w, w.sb.rootInode, cs);
  }

  lemma GoneIsNotKept(v: Volume, w: Volume, f: U32)
    requires Live(v.inodes, f) && !Live(w.inodes, f)
    ensures !Extends(v, w, {})
  {
    assert !NodeKept(v, w, f);
  }

  lemma ReadyDeletes(v: Volume, cs: Path)
    requires Inv(v) && ResolvesToFile(v, cs)
    ensures Ready(v, cs).0 == DeleteFile(v, cs).0
  {
    hide EnsureDir, DecodeDir, DeleteFile, Walk;
    FileIsListed(v, cs);
    EnsureExisting(v, Parent(cs));
  }
}
