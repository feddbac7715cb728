/** The guarantees of the file system in the words of its users. */
module Guarantees {
  import opened Bytes
  import opened Layout
  import opened Paths
  import opened Volumes
  import opened Invariants
  import opened Isolation
  import opened Persistence
  import opened Growth
  import opened Directories
  import opened Mkdir
  import opened Files
  import opened Names
  import opened Uniqueness
  import opened Deletion
  import opened Creation
  import opened Capacity
  import opened Installation
  import opened Sessions
  import opened Writes
  import opened Crash
  import opened Novelty
  import opened Listing
  import opened Torn

  // ---------------------------------------------------------------- paths

  /** Resolving a path is resolving its parent and looking the last name up there. */
  lemma ResolveSplit(v: Volume, path: Str)
    requires Comps(path) != []
    ensures var p := Resolve(v, Comps(Canon(Parent(Comps(path)))));
      Resolve(v, Comps(path)) == if p == NOT_FOUND then NOT_FOUND else Step(v, p, Name(Comps(path)))
  {
    hide Comps, DecodeDir;
    CompsOfCanon(Parent(Comps(path)));
    WalkSplit(v, v.sb.rootInode, Comps(path));
  }

  /** In a directory that can be searched, `.` is itself and `..` its parent. */
  lemma DotsLead(v: Volume, d: U32)
    requires Inv(v) && OpenDir(v.inodes, d)
    ensures Step(v, d, [46]) == d && Step(v, d, [46, 46]) == v.inodes[d].parent
  {
    hide DecodeDir, FindSlot, CStr;
    var es := Entries(v, d);
    assert [46] == SELF && [46, 46] == UP;
    assert NodeOk(v.inodes, d) && DirOk(v.inodes, d, es);
    FirstNamed(es, SELF, 0);
    FirstNamed(es, UP, 1);
  }

  /** So `..` behind the name of a directory that can be searched leads back, and `.` stays. */
  lemma DotsCancel(v: Volume, cs: Path)
    requires Inv(v) && cs != [] && !IsDot(Name(cs)) && Resolve(v, cs) != NOT_FOUND && OpenDir(v.inodes, Resolve(v, cs))
    ensures Resolve(v, cs + [[46, 46]]) == Resolve(v, Parent(cs)) && Resolve(v, cs + [[46]]) == Resolve(v, cs)
  {
    hide DecodeDir, Walk, FindSlot, CStr;
    var p, x := Resolve(v, Parent(cs)), Resolve(v, cs);
    assert Parent(cs + [[46, 46]]) == cs && Name(cs + [[46, 46]]) == [46, 46];
    assert Parent(cs + [[46]]) == cs && Name(cs + [[46]]) == [46];
    WalkSplit(v, v.sb.rootInode, cs + [[46, 46]]);
    WalkSplit(v, v.sb.rootInode, cs + [[46]]);
    WalkSplit(v, v.sb.rootInode, cs);
    ResolveLands(v, Parent(cs));
    DotsLead(v, x);
    ListedBelow(v, p, Name(cs));
  }

  /** A name that is not a dot leads to an inode whose parent is the directory. */
  lemma ListedBelow(v: Volume, p: U32, name: Str)
    requires Inv(v) && Live(v.inodes, p) && Step(v, p, name) != NOT_FOUND && !IsDot(name)
    ensures Step(v, p, name) < MAX_INODES && v.inodes[Step(v, p, name)].parent == p
  {
    hide DecodeDir, FindSlot, CStr;
    var es := Entries(v, p);
    var k := FindSlot(es, name);
    assert NodeOk(v.inodes, p) && DirOk(v.inodes, p, es);
    assert k >= 2;
    assert EntryOk(v.inodes, p, es[k]);
  }

  /** mkdir -p: a missing path with a plain tail is a directory after a successful call, and so is every prefix,
      exactly when the one directory that existed before and gains an entry had room for it; otherwise the path is
      still missing. */
  lemma MkdirMakesPath(v: Volume, cs: Path, k: nat)
    requires Inv(v) && v.bitmap[0] && PlainTail(v, cs) && Resolve(v, cs) == NOT_FOUND && k <= |cs|
    ensures var (w, ok) := CreateDir(v, cs);
      var room := Resolve(v, Parent(cs)) == NOT_FOUND || Roomy(v, Resolve(v, Parent(cs)), Name(cs));
      ok ==> (ResolvesToDir(w, cs) <==> room) && (Resolve(w, cs) == NOT_FOUND <==> !room) && (room ==> ResolvesToDir(w, cs[..k]))
  {
    hide CreateDir, DecodeDir, Roomy, Walk, Extends;
    var (w, ok) := CreateDir(v, cs);
    CreateDirPlain(v, cs);
    if ok && Resolve(w, cs) != NOT_FOUND {
      PrefixResolves(w, w.sb.rootInode, cs, k);
      if k == |cs| {
        assert cs[..k] == cs;
      }
    }
  }

  // ---------------------------------------------------------------- isolation

  /** Creating a directory changes neither the meaning of a path that resolved nor the bytes of a file. */
  lemma MkdirIsolates(v: Volume, cs: Path, qs: Path, max: U32)
    requires Inv(v) && v.bitmap[0] && PlainTail(v, cs) && Resolve(v, qs) != NOT_FOUND
    ensures var w := CreateDir(v, cs).0;
      Resolve(w, qs) == Resolve(v, qs) && ReadFile(w, qs, max) == ReadFile(v, qs, max)
  {
    hide CreateDir, DecodeDir, Walk, Extends, Contents;
    CreateDirPlain(v, cs);
    ResolveKept(v, CreateDir(v, cs).0, {}, qs);
  }

  /** Creating or replacing a file: the same for every path that did not resolve to the replaced file. */
  lemma CreateIsolates(v: Volume, cs: Path, data: seq<Byte>, qs: Path, max: U32)
    requires Inv(v) && v.bitmap[0] && Unique(v) && PlainTail(v, cs) && !ResolvesToDir(v, cs)
    requires Resolve(v, qs) != NOT_FOUND && !(ResolvesToFile(v, cs) && Resolve(v, qs) == Resolve(v, cs))
    ensures var w := CreateFile(v, cs, data).0;
      Resolve(w, qs) == Resolve(v, qs) && ReadFile(w, qs, max) == ReadFile(v, qs, max)
  {
    hide CreateFile, DecodeDir, Walk, Extends, Contents, Unique;
    CreateFileExtends(v, cs, data);
    ResolveKept(v, CreateFile(v, cs, data).0, Replaced(v, cs), qs);
  }

  /** Deleting: exactly the paths to the file stop resolving, and every other file reads as before. */
  lemma DeleteIsolates(v: Volume, cs: Path, qs: Path, max: U32)
    requires Inv(v) && Unique(v) && ResolvesToFile(v, cs)
    ensures var w := DeleteFile(v, cs).0;
      && (Resolve(v, qs) == Resolve(v, cs) ==> Resolve(w, qs) == NOT_FOUND)
      && (Resolve(v, qs) != Resolve(v, cs) ==> Resolve(w, qs) == Resolve(v, qs) && ReadFile(w, qs, max) == ReadFile(v, qs, max))
  {
    hide DeleteFile, DecodeDir, Walk, Extends, Contents, Unique;
    DeleteExact(v, cs, qs);
    DeleteFileKeeps(v, cs);
    if Resolve(v, qs) != NOT_FOUND && Resolve(v, qs) != Resolve(v, cs) {
      ResolveKept(v, DeleteFile(v, cs).0, {Resolve(v, cs)}, qs);
    }
  }

  /** The converse for mkdir, on any path: what resolves afterwards resolved before, to the same inode, or leads through an
      inode that was free. In particular every path that starts to resolve does. */
  lemma MkdirNewPaths(v: Volume, cs: Path, qs: Path)
    requires Inv(v)
    ensures var w := CreateDir(v, cs).0;
      Resolve(w, qs) != NOT_FOUND ==> Resolve(v, qs) == Resolve(w, qs) || ThroughNew(v, w, qs)
  {
    hide CreateDir, DecodeDir, Walk, Grounded, ThroughNew;
    var w := CreateDir(v, cs).0;
    CreateDirGrounded(v, cs);
    if Resolve(w, qs) != NOT_FOUND {
      GroundedWalk(v, w, {}, qs);
    }
  }

  /** And for create, where a path of the replaced file may lead to its successor. */
  lemma CreateNewPaths(v: Volume, cs: Path, data: seq<Byte>, qs: Path)
    requires Inv(v) && v.bitmap[0] && Unique(v) && PlainTail(v, cs)
    ensures var w := CreateFile(v, cs, data).0;
      Resolve(w, qs) != NOT_FOUND ==>
        || Resolve(v, qs) == Resolve(w, qs)
        || ThroughNew(v, w, qs)
        || (ResolvesToFile(v, cs) && Resolve(v, qs) == Resolve(v, cs) && ResolvesToFile(w, qs))
  {
    hide CreateFile, DecodeDir, Walk, Grounded, ThroughNew, Unique;
    var w := CreateFile(v, cs, data).0;
    CreateFileGrounded(v, cs, data);
    ResolveLands(v, cs);
    if Resolve(w, qs) != NOT_FOUND {
      GroundedWalk(v, w, Replaced(v, cs), qs);
    }
  }

  // ---------------------------------------------------------------- persistence and crashes over runs

  /** At any point of any run a reboot changes neither what a path resolves to nor what a file reads as. */
  lemma PersistenceOverRuns(d: Disk, text: TextArea, username: Str, ops: seq<Op>, cs: Path, max: U32)
    ensures var v := Run(Start(d, text, username), ops).fs;
      && Resolve(Reload(v.disk), cs) == Resolve(v, cs) && ReadFile(Reload(v.disk), cs, max) == ReadFile(v, cs, max)
  {
    hide Run, Install, Synced, Conserved, Inv, Reload, Walk, Contents;
    InstallKeeps(d, text, username);
    RunKeeps(Start(d, text, username), ops);
    RebootKeepsPaths(Run(Start(d, text, username), ops).fs, cs, max);
  }

  /** At any point of any run a delete may be cut after any number of its sector writes: the volume found on reload
      is safe, and every path to another inode resolves and reads as before. */
  lemma CrashOverRuns(d: Disk, text: TextArea, username: Str, ops: seq<Op>, cs: Path, k: nat, qs: Path, max: U32)
    requires var v := Run(Start(d, text, username), ops).fs;
      && ResolvesToFile(v, cs) && k <= |DeleteWrites(v, cs)|
      && Resolve(v, qs) != NOT_FOUND && Resolve(v, qs) != Resolve(v, cs)
    ensures var v := Run(Start(d, text, username), ops).fs;
      var r := Reload(Apply(v.disk, DeleteWrites(v, cs)[..k]));
      Inv(r) && Synced(r) && Resolve(r, qs) == Resolve(v, qs) && ReadFile(r, qs, max) == ReadFile(v, qs, max)
  {
    hide Run, Install, Synced, Conserved, Inv, Reload, Walk, Contents, Apply, DeleteWrites, Extends;
    InstallKeeps(d, text, username);
    RunKeeps(Start(d, text, username), ops);
    var v := Run(Start(d, text, username), ops).fs;
    CrashDuringDelete(v, cs, k);
    ResolveKept(v, Reload(Apply(v.disk, DeleteWrites(v, cs)[..k])), {Resolve(v, cs)}, qs);
  }

  /** At any point of any run without an interrupted delete, mkdir and create may be cut after any number of their writes:
      a reload finds a sound volume after exactly these cuts. */
  lemma TornOverRuns(d: Disk, text: TextArea, username: Str, ops: seq<Op>, cs: Path, data: seq<Byte>, k: nat)
    requires NoCuts(ops)
    ensures var v := Run(Start(d, text, username), ops).fs;
      && (k <= |CreateDirWrites(v, cs)| ==> (Inv(Reload(Apply(v.disk, CreateDirWrites(v, cs)[..k]))) <==> CreateDirCutSafe(v, cs, k)))
      && (k <= |CreateFileWrites(v, cs, data)| ==>
            (Inv(Reload(Apply(v.disk, CreateFileWrites(v, cs, data)[..k]))) <==> CreateFileCutSafe(v, cs, data, k)))
  {
    hide Run, Install, Synced, Conserved, Inv, Clean, Reload, Apply, CreateDirWrites, CreateDirCutSafe, CreateFileWrites, CreateFileCutSafe, DriftOf;
    InstallKeeps(d, text, username);
    RunKeeps(Start(d, text, username), ops);
    var v := Run(Start(d, text, username), ops).fs;
    if k <= |CreateDirWrites(v, cs)| {
      CreateDirCut(v, cs, k);
    }
    if k <= |CreateFileWrites(v, cs, data)| {
      CreateFileCut(v, cs, data, k);
    }
  }
}
