/** The other half of isolation: a path that starts to resolve leads through an inode that was free. */
module Novelty {
  import opened Bytes
  import opened Layout
  import opened Paths
  import opened Volumes
  import opened Invariants
  import opened Isolation
  import opened Persistence
  import opened Growth
  import opened Directories
  import opened Mkdir
  import opened Files
  import opened Names
  import opened Uniqueness
  import opened Deletion
  import opened Creation

  ghost predicate WasFree(v: Volume, i: int) { 0 <= i < MAX_INODES && v.inodes[i].kind == FREE }

  /** A lookup gives what it gave, nothing, or an inode that was free; or a file in the place of a file in `gone`. */
  ghost predicate StepGrounded(v: Volume, w: Volume, i: U32, name: Str, gone: set<int>) {
    var y := Step(w, i, name);
    y == Step(v, i, name) || y == NOT_FOUND || WasFree(v, y) || (Step(v, i, name) in gone && KindOf(w, y) == FILE)
  }

  /** No lookup in what was live in `v` leads to anything live in `v` that it did not lead to. */
  ghost predicate Grounded(v: Volume, w: Volume, gone: set<int>) {
    && w.sb.rootInode == v.sb.rootInode
    && (forall i | Live(v.inodes, i) && i !in gone :: Live(w.inodes, i))
    && (forall i | i in gone :: !LiveDir(w.inodes, i))
    && (forall i, name | Live(v.inodes, i) && i !in gone :: StepGrounded(v, w, i, name, gone))
  }

  lemma KeptGrounded(v: Volume, w: Volume)
    requires w.sb.rootInode == v.sb.rootInode && forall i | Live(v.inodes, i) :: Kept(v, w, i)
    ensures Grounded(v, w, {})
  {
    hide DecodeDir;
    forall i: U32, name | Live(v.inodes, i)
      ensures StepGrounded(v, w, i, name, {})
    {
      KeptEntries(v, w, i);
    }
  }

  lemma GroundedThen(u: Volume, v: Volume, w: Volume)
    requires Grounded(u, v, {}) && Grounded(v, w, {})
    ensures Grounded(u, w, {})
  {
    hide DecodeDir, Step;
    forall i: U32, name | Live(u.inodes, i)
      ensures StepGrounded(u, w, i, name, {})
    {
      var y := Step(w, i, name);
      assert StepGrounded(u, v, i, name, {}) && StepGrounded(v, w, i, name, {});
      assert Live(u.inodes, y) ==> Live(v.inodes, y);
    }
  }

  // ---------------------------------------------------------------- one new inode

  lemma ListedGrounded(v: Volume, u: Volume, p: U32, name: Str, n: U32)
    requires Inv(v) && Inv(u) && Grown(v, u, n) && Orphan(u, n) && LiveDir(v.inodes, p) && u.inodes[n].parent == p && |name| < MAX_FILENAME
    ensures var w := SyncNodes(AddEntry(u, p, name, n).0);
      && Grounded(v, w, {})
      && forall i: U32, nm | Live(v.inodes, i) :: Step(w, i, nm) == (if i == p && nm == name && Roomy(v, p, name) then n else Step(v, i, nm))
  {
    hide DecodeDir, EncodeDir, AddEntry, SyncNodes, Roomy, Step, Inv;
    var x := AddEntry(u, p, name, n).0;
    var w := SyncNodes(x);
    GrownKept(v, u, n);
    SameRoom(v, u, p, name);
    AddEntryEffect(u, p, name, n);
    SyncNodesFrame(x);
    MetadataWriteExtends(x, w);
    forall i: U32, nm | Live(v.inodes, i)
      ensures Step(w, i, nm) == (if i == p && nm == name && Roomy(v, p, name) then n else Step(v, i, nm))
    {
      KeptEntries(v, u, i);
      if i != p {
        KeptEntries(u, x, i);
      }
    }
    forall i | Live(v.inodes, i)
      ensures Live(w.inodes, i)
    {
      assert Kept(v, u, i);
    }
  }

  lemma RollbackGrounded(v: Volume, u: Volume, n: U32)
    requires Inv(v) && Grown(v, u, n) && NodeOk(u.inodes, n)
    ensures Grounded(v, FreeInode(u, n), {})
  {
    hide DecodeDir, FreeInode;
    var w := FreeInode(u, n);
    GrownKept(v, u, n);
    RolledBack(u, n);
    forall i | Live(v.inodes, i)
      ensures Kept(v, w, i)
    {
      assert Kept(v, u, i);
    }
    KeptGrounded(v, w);
  }

  lemma MakeDirGrounded(v: Volume, p: U32, name: Str)
    requires Inv(v) && p < MAX_INODES && |name| < MAX_FILENAME
    ensures Grounded(v, MakeDir(v, p, name).0, {})
  {
    hide DecodeDir, EncodeDir, MakeDir, Prepared, SyncNodes, FreeInode, AddEntry, Grounded;
    KeptGrounded(v, v);
    if !LiveDir(v.inodes, p) {
      NotADir(v, p, name);
    } else {
      var (u, n, taken) := Prepared(v, p);
      PreparedKeeps(v, p);
      MakeDirIs(v, p, name);
      if n != NOT_FOUND {
        assert NodeOk(u.inodes, n);
        if taken {
          ListedGrounded(v, u, p, name, n);
        } else {
          RollbackGrounded(v, u, n);
        }
      }
    }
  }

  lemma {:induction false} CreateDirGrounded(v: Volume, cs: Path)
    requires Inv(v)
    ensures Grounded(v, CreateDir(v, cs).0, {})
    decreases |cs|, 0
  {
    hide MakeDir, Upkept, Inv, Grounded, DecodeDir, Walk;
    KeptGrounded(v, v);
    if Name(cs) != [] && |Name(cs)| < MAX_FILENAME && Resolve(v, cs) == NOT_FOUND {
      var (w, p) := EnsureDir(v, Parent(cs));
      EnsureDirUpkept(v, Parent(cs));
      EnsureDirGrounded(v, Parent(cs));
      if p != NOT_FOUND {
        UpkeptInv(v, w);
        MakeDirGrounded(w, p, Name(cs));
        GroundedThen(v, w, MakeDir(w, p, Name(cs)).0);
      }
    }
  }

  lemma {:induction false} EnsureDirGrounded(v: Volume, cs: Path)
    requires Inv(v)
    ensures Grounded(v, EnsureDir(v, cs).0, {})
    decreases |cs|, 1
  {
    hide CreateDir, Grounded, Walk;
    KeptGrounded(v, v);
    CreateDirGrounded(v, cs);
  }

  // ---------------------------------------------------------------- a file, possibly in the place of another

  lemma StoreFileGrounded(v: Volume, p: U32, name: Str, data: seq<Byte>)
    requires Inv(v) && LiveDir(v.inodes, p) && |name| < MAX_FILENAME && |data| <= MAX_FILE_SIZE
    ensures var w := StoreFile(v, p, name, data).0;
      && Grounded(v, w, {})
      && forall i: U32, nm | Live(v.inodes, i) && Step(w, i, nm) != Step(v, i, nm) ::
           i == p && nm == name && KindOf(w, Step(w, i, nm)) == FILE
    ensures forall i | WasFree(v, i) :: !LiveDir(StoreFile(v, p, name, data).0.inodes, i)
  {
    hide DecodeDir, StoreFile, Filled, SyncNodes, FreeInode, AddEntry, Grounded, Step, Roomy, Inv, SuperSector;
    var (u, n, stored) := Filled(v, p, data);
    FilledKeeps(v, p, data);
    StoreFileIs(v, p, name, data);
    KeptGrounded(v, v);
    if n != NOT_FOUND {
      if stored {
        var x := SyncNodes(AddEntry(u, p, name, n).0);
        ListedGrounded(v, u, p, name, n);
        ListedDisk(v, u, p, name, n);
        MetadataWriteExtends(x, SyncSuper(x));
        KeptGrounded(x, SyncSuper(x));
        GroundedThen(v, x, SyncSuper(x));
      } else {
        GrowingOk(v, u, n);
        RollbackGrounded(v, u, n);
        StoreFileUndone(v, p, name, data);
        AllStepsKept(v, FreeInode(u, n));
      }
    }
  }

  lemma AllStepsKept(v: Volume, w: Volume)
    requires forall i | Live(v.inodes, i) :: Kept(v, w, i)
    ensures forall i: U32, nm | Live(v.inodes, i) :: Step(w, i, nm) == Step(v, i, nm)
  {
    hide DecodeDir, Step;
    forall i: U32, nm | Live(v.inodes, i)
      ensures Step(w, i, nm) == Step(v, i, nm)
    {
      KeptEntries(v, w, i);
    }
  }

  lemma CreateFileGrounded(v: Volume, cs: Path, data: seq<Byte>)
    requires Inv(v) && v.bitmap[0] && Unique(v) && PlainTail(v, cs)
    ensures Grounded(v, CreateFile(v, cs, data).0, Replaced(v, cs))
  {
    hide DecodeDir, CreateFile, StoreFile, Ready, EnsureDir, DeleteFile, Walk, Step, Unique, Grounded, Upkept, DirsKept, Inv;
    var w := CreateFile(v, cs, data).0;
    CreateFileIs(v, cs, data);
    if ResolvesToFile(v, cs) {
      ReplacingGrounded(v, cs, data);
    } else {
      KeptGrounded(v, v);
      if Acceptable(cs, data) {
        var (r, p) := Ready(v, cs);
        ReadyKeeps(v, cs);
        UpkeptInv(v, r);
        ReadyGrounded(v, cs);
        if p != NOT_FOUND {
          StoreFileGrounded(r, p, Name(cs), data);
          GroundedThen(v, r, w);
        }
      }
    }
  }

  /** Nothing is deleted before the new file is stored. */
  lemma ReadyGrounded(v: Volume, cs: Path)
    requires Inv(v) && v.bitmap[0] && Unique(v) && PlainTail(v, cs) && !ResolvesToFile(v, cs) && cs != [] && |Name(cs)| < MAX_FILENAME
    ensures Grounded(v, Ready(v, cs).0, {})
  {
    hide DecodeDir, EnsureDir, DeleteFile, Walk, Step, Unique, Grounded, Shadows, Roomy;
    var (u, p) := EnsureDir(v, Parent(cs));
    EnsureDirGrounded(v, Parent(cs));
    KeptGrounded(v, v);
    if Resolve(v, cs) == NOT_FOUND {
      EnsureDirPlain(v, cs);
      EnsureDirUpkept(v, Parent(cs));
      WalkSplit(u, u.sb.rootInode, cs);
    } else {
      ResolveLands(v, cs);
      FileOrDir(v, Resolve(v, cs));
      ReadyOverDir(v, cs);
    }
  }

  lemma ReplacingGrounded(v: Volume, cs: Path, data: seq<Byte>)
    requires Inv(v) && v.bitmap[0] && Unique(v) && ResolvesToFile(v, cs)
    ensures Grounded(v, CreateFile(v, cs, data).0, {Resolve(v, cs)})
  {
    hide DecodeDir, CreateFile, StoreFile, EnsureDir, DeleteFile, Walk, Step, Unique, Upkept, DirsKept, Inv, Extends, Roomy;
    var f, w := Resolve(v, cs), CreateFile(v, cs, data).0;
    CreateFileIs(v, cs, data);
    FileIsListed(v, cs);
    if !Acceptable(cs, data) {
      assert w == v;
    } else {
      var (r, p) := Ready(v, cs);
      ReadyDeletes(v, cs);
      ReadyReplacing(v, cs);
      ReadyKeeps(v, cs);
      UpkeptInv(v, r);
      DeletedLives(v, cs);
      StoreFileGrounded(r, p, Name(cs), data);
      var gone: set<int> := {f};
      forall i: U32, nm | Live(v.inodes, i) && i != f
        ensures StepGrounded(v, w, i, nm, gone)
      {
        DeleteFileSteps(v, cs, i, nm);
        assert StepGrounded(r, w, i, nm, {});
      }
    }
  }

  lemma DeletedLives(v: Volume, cs: Path)
    requires Inv(v) && ResolvesToFile(v, cs)
    ensures var r, f := DeleteFile(v, cs).0, Resolve(v, cs);
      && r.sb.rootInode == v.sb.rootInode && WasFree(r, f)
      && forall i | 0 <= i < MAX_INODES && i != f && Live(v.inodes, i) :: Live(r.inodes, i)
  {
    hide DecodeDir, DeleteFile, Walk;
    var r := DeleteFile(v, cs).0;
    DeleteFileKeeps(v, cs);
    forall i | 0 <= i < MAX_INODES && i != Resolve(v, cs) && Live(v.inodes, i)
      ensures Live(r.inodes, i)
    {
      assert NodeKept(v, r, i);
    }
  }

  // ---------------------------------------------------------------- whole paths

  /** Some prefix of `qs` leads in `w` to an inode that was free in `v`. */
  ghost predicate ThroughNew(v: Volume, w: Volume, qs: Path) {
    exists k :: 0 <= k <= |qs| && WasFree(v, Resolve(w, qs[..k]))
  }

  /** A path that resolves in `w` resolved in `v`, to the same inode or to a file of `gone`, or leads through an inode
      that was free. */
  lemma {:induction false} GroundedWalk(v: Volume, w: Volume, gone: set<int>, qs: Path)
    requires Inv(v) && Grounded(v, w, gone) && (forall i | i in gone :: 0 <= i < MAX_INODES && v.inodes[i].kind == FILE)
    requires Resolve(w, qs) != NOT_FOUND
    ensures ThroughNew(v, w, qs) || Resolve(v, qs) == Resolve(w, qs) || (Resolve(v, qs) in gone && KindOf(w, Resolve(w, qs)) == FILE)
    decreases |qs|
  {
    hide DecodeDir, Step;
    if qs != [] {
      var ps, name := Parent(qs), Name(qs);
      WalkSplit(v, v.sb.rootInode, qs);
      WalkSplit(w, w.sb.rootInode, qs);
      GroundedWalk(v, w, gone, ps);
      if ThroughNew(v, w, ps) {
        var k :| 0 <= k <= |ps| && WasFree(v, Resolve(w, ps[..k]));
        assert ps[..k] == qs[..k];
      } else if WasFree(v, Resolve(w, qs)) {
        assert qs[..|qs|] == qs;
      } else {
        assert ps[..|ps|] == ps;
        GroundedStep(v, w, gone, ps, name);
      }
    }
  }

  /** The last step of a walk. */
  lemma GroundedStep(v: Volume, w: Volume, gone: set<int>, ps: Path, name: Str)
    requires Inv(v) && Grounded(v, w, gone) && (forall i | i in gone :: 0 <= i < MAX_INODES && v.inodes[i].kind == FILE)
    requires var q, y := Resolve(w, ps), Step(w, Resolve(w, ps), name);
      q != NOT_FOUND && y != NOT_FOUND && !WasFree(v, y) && !WasFree(v, q) && (Resolve(v, ps) == q || (Resolve(v, ps) in gone && KindOf(w, q) == FILE))
    ensures var x, y := Step(v, Resolve(v, ps), name), Step(w, Resolve(w, ps), name);
      Resolve(v, ps) != NOT_FOUND && (x == y || (x in gone && KindOf(w, y) == FILE))
  {
    hide DecodeDir, Lookup;
    var q := Resolve(w, ps);
    assert Searchable(w, q);
    ResolveLands(v, ps);
    if q !in gone {
      assert StepGrounded(v, w, q, name, gone);
    }
  }
}
