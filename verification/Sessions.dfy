/** Whole runs: any sequence of shell operations and reboots from a fresh installation. */
module Sessions {
  import opened Bytes
  import opened Layout
  import opened Paths
  import opened Volumes
  import opened Invariants
  import opened Isolation
  import opened Persistence
  import opened Growth
  import opened Directories
  import opened Mkdir
  import opened Files
  import opened Names
  import opened Uniqueness
  import opened Deletion
  import opened Creation
  import opened Installation
  import opened Writes
  import opened Crash

  /** The mounted volume and the shell's `current_dir`. */
  datatype Session = Session(fs: Volume, cwd: Str)

  datatype Op =
    | MkDir(path: Str)
    | Write(path: Str, data: seq<Byte>)
    | Remove(path: Str)
    | ChangeTo(path: Str)
    | Reboot
    /** A delete cut off after `k` sector writes, and the reboot after it. */
    | CutRemove(path: Str, k: nat)

  /** The position of the last slash, or 0. */
  function LastSlashAt(text: Str, n: nat): (at: nat)
    requires n <= |text|
    ensures at < n || (n == 0 && at == 0) || at == 0
    ensures at < n && text[at] == SLASH ==> forall k | at < k < n :: text[k] != SLASH
    ensures (exists k :: 0 <= k < n && text[k] == SLASH) ==> at < n && text[at] == SLASH
  {
    if n == 0 then 0 else if text[n - 1] == SLASH then n - 1 else LastSlashAt(text, n - 1)
  }

  /** `cd ..` cuts the text of the current directory. */
  function StripLast(cwd: Str): Str {
    var at := LastSlashAt(cwd, |cwd|);
    if at == 0 then ROOT else cwd[..at]
  }

  function Absolute(path: Str, cwd: Str): Str {
    if path != [] && path[0] == SLASH then path
    else if cwd == ROOT then ROOT + path
    else cwd + [SLASH] + path
  }

  /** `fs_change_dir`: the new text of the current directory and whether the call succeeded. */
  function ChangeDir(v: Volume, path: Str, cwd: Str): (Str, bool) {
    if path == UP then (if cwd == ROOT then cwd else StripLast(cwd), true)
    else if ResolvesToDir(v, Comps(Absolute(path, cwd))) then (Absolute(path, cwd), true)
    else (cwd, false)
  }

  function Perform(s: Session, op: Op): Session {
    match op
    case MkDir(path) => s.(fs := CreateDir(s.fs, Comps(path)).0)
    case Write(path, data) => s.(fs := CreateFile(s.fs, Comps(path), data).0)
    case Remove(path) => s.(fs := DeleteFile(s.fs, Comps(path)).0)
    case ChangeTo(path) => s.(cwd := ChangeDir(s.fs, path, s.cwd).0)
    case Reboot => s.(fs := Reload(s.fs.disk))
    case CutRemove(path, k) => s.(fs := AfterCut(s.fs, Comps(path), k))
  }

  predicate Reloads(op: Op) { op.Reboot? || op.CutRemove? }

  /** What a reload finds after the first `k` writes of a delete, or after all of them. */
  function AfterCut(v: Volume, cs: Path, k: nat): Volume {
    var ws := DeleteWrites(v, cs);
    Reload(Apply(v.disk, if k < |ws| then ws[..k] else ws))
  }

  function Run(s: Session, ops: seq<Op>): Session
    decreases |ops|
  {
    if ops == [] then s else Run(Perform(s, ops[0]), ops[1..])
  }

  function Start(d: Disk, text: TextArea, username: Str): Session { Session(Install(d, text, username), ROOT) }

  // ---------------------------------------------------------------- runs with any paths

  lemma PerformKeeps(s: Session, op: Op)
    requires Inv(s.fs) && s.fs.bitmap[0] && Synced(s.fs)
    ensures var w := Perform(s, op).fs;
      && Inv(w) && w.bitmap[0] && Synced(w)
      && (!Reloads(op) ==> DriftOf(w) == DriftOf(s.fs))
      && (!op.CutRemove? && Clean(s.fs) ==> Clean(w))
  {
    hide CreateDir, CreateFile, DeleteFile, Reload, Clean, Tidy, DriftOf, Synced, Inv, AfterCut;
    var v := s.fs;
    match op
    case MkDir(path) => CreateDirUpkept(v, Comps(path));
    case Write(path, data) => CreateFileKeeps(v, Comps(path), data);
    case Remove(path) => DeleteFileKeeps(v, Comps(path));
    case ChangeTo(path) =>
    case Reboot => RebootKeeps(v);
    case CutRemove(path, k) => CutKeeps(v, Comps(path), k);
  }

  lemma CutKeeps(v: Volume, cs: Path, k: nat)
    requires Inv(v) && v.bitmap[0] && Synced(v)
    ensures var r := AfterCut(v, cs, k);
      Inv(r) && r.bitmap[0] && Synced(r) && Extends(v, r, Replaced(v, cs)) && (Unique(v) ==> Unique(r))
  {
    hide DeleteWrites, Apply, Reload, Inv, Synced, Extends, Walk, DecodeDir, Unique;
    var ws := DeleteWrites(v, cs);
    if ResolvesToFile(v, cs) {
      var c := if k < |ws| then k else |ws|;
      assert ws[..|ws|] == ws;
      CrashDuringDelete(v, cs, c);
      if Unique(v) {
        CrashUnique(v, cs, c);
      }
    } else {
      NothingToDelete(v, cs);
      ApplyNone(v.disk);
      RebootKeeps(v);
      RebootExtends(v);
      if Unique(v) {
        RebootUnique(v);
      }
    }
  }

  lemma NothingToDelete(v: Volume, cs: Path)
    requires !ResolvesToFile(v, cs)
    ensures DeleteWrites(v, cs) == []
  {
    hide Walk;
  }

  lemma RebootUnique(v: Volume)
    requires Synced(v) && Unique(v)
    ensures Unique(Reload(v.disk))
  {
    hide Reload, DecodeDir, Distinct;
    var r := Reload(v.disk);
    RebootDirs(v);
    SameDirsUnique(v, r);
  }

  /** Every state of every run, interrupted deletes among them: the invariant holds, block 0 stays taken, and the disk is
      in step with memory; nothing leaks unless a delete is interrupted. */
  lemma {:induction false} RunKeeps(s: Session, ops: seq<Op>)
    requires Inv(s.fs) && s.fs.bitmap[0] && Synced(s.fs)
    ensures var w := Run(s, ops).fs;
      && Inv(w) && w.bitmap[0] && Synced(w)
      && (NoReloads(ops) ==> DriftOf(w) == DriftOf(s.fs))
      && (NoCuts(ops) && Clean(s.fs) ==> Clean(w))
    decreases |ops|
  {
    hide Perform, Inv, Synced, Clean, DriftOf;
    if ops != [] {
      PerformKeeps(s, ops[0]);
      RunKeeps(Perform(s, ops[0]), ops[1..]);
    }
  }

  ghost predicate NoReloads(ops: seq<Op>) { forall i | 0 <= i < |ops| :: !Reloads(ops[i]) }

  ghost predicate NoCuts(ops: seq<Op>) { forall i | 0 <= i < |ops| :: !ops[i].CutRemove? }

  /** Block ownership over whole runs, with reboots and interrupted deletes: a nonzero block that an inode holds is
      marked and held by one (inode, index) pair only, and block 0 is marked for good, so that no allocation returns it.
      Unless a delete is interrupted, every marked block is held. */
  lemma OwnershipOverRuns(d: Disk, text: TextArea, username: Str, ops: seq<Op>, b: U32)
    requires b < MAX_BLOCKS
    ensures var v := Run(Start(d, text, username), ops).fs;
      && (b != 0 && Held(v.inodes, b) ==> v.bitmap[b])
      && (b != 0 && NoCuts(ops) ==> (v.bitmap[b] <==> Held(v.inodes, b)))
      && (forall i, j, i', j' | b != 0 && Holds(v.inodes, i, j, b) && Holds(v.inodes, i', j', b) :: i == i' && j == j')
      && v.bitmap[0] && AllocateBlock(v).1 != 0
  {
    hide Run, Install, Synced, Conserved, DriftOf, NoCuts, NoReloads, BlankStored;
    InstallKeeps(d, text, username);
    RunKeeps(Start(d, text, username), ops);
  }

  /** Conservation: without reloads the free counters count the clear bits and the free inodes. */
  lemma ConservationOverRuns(d: Disk, text: TextArea, username: Str, ops: seq<Op>)
    requires NoReloads(ops)
    ensures Conserved(Run(Start(d, text, username), ops).fs)
  {
    hide Run, Install, Synced, Conserved, Inv, DriftOf;
    InstallKeeps(d, text, username);
    RunKeeps(Start(d, text, username), ops);
    NoDrift(Start(d, text, username).fs);
    NoDrift(Run(Start(d, text, username), ops).fs);
  }

  // ---------------------------------------------------------------- the directory tree

  /** The ancestor of `i` after `n` steps along `parent_inode`. */
  function Ancestor(t: InodeTable, i: U32, n: nat): U32
    requires i < MAX_INODES
    decreases n
  {
    if n == 0 then i
    else
      var p := t[i].parent;
      if p < MAX_INODES then Ancestor(t, p, n - 1) else p
  }

  lemma {:induction false} ChainOfDepth(t: InodeTable, depth: seq<nat>, i: U32)
    returns (n: nat)
    requires NodesOk(t) && DepthOk(t, depth) && LiveDir(t, i)
    ensures Ancestor(t, i, n) == 0
    ensures forall k: nat | k <= n :: LiveDir(t, Ancestor(t, i, k))
    ensures forall k: nat | 0 < k <= n :: Ancestor(t, i, k) < MAX_INODES && depth[Ancestor(t, i, k)] < depth[i]
    ensures forall j: nat, k: nat | j < k <= n :: Ancestor(t, i, j) != Ancestor(t, i, k)
    decreases depth[i]
  {
    if i == 0 {
      n := 0;
    } else {
      assert NodeOk(t, i) && ParentHigher(t, depth, i);
      var p := t[i].parent;
      var m := ChainOfDepth(t, depth, p);
      n := m + 1;
      assert forall k: nat | 0 < k <= n :: Ancestor(t, i, k) == Ancestor(t, p, k - 1);
    }
  }

  /** Following parents from any directory reaches the root without repeating an inode. */
  lemma ChainReachesRoot(v: Volume, i: U32)
    requires Inv(v) && LiveDir(v.inodes, i)
    ensures exists n: nat ::
      && Ancestor(v.inodes, i, n) == 0
      && (forall j: nat, k: nat | j < k <= n :: Ancestor(v.inodes, i, j) != Ancestor(v.inodes, i, k))
  {
    var depth :| DepthOk(v.inodes, depth);
    var n := ChainOfDepth(v.inodes, depth, i);
  }

  /** A live file or directory is listed at most once outside `.` and `..`. */
  lemma ListedOnce(v: Volume, d: U32, i: nat, d': U32, i': nat)
    requires Inv(v) && OpenDir(v.inodes, d) && OpenDir(v.inodes, d') && 2 <= i < MAX_DIR_ENTRIES && 2 <= i' < MAX_DIR_ENTRIES
    requires Used(Entries(v, d)[i]) && Used(Entries(v, d')[i']) && Entries(v, d)[i].inode == Entries(v, d')[i'].inode
    ensures d == d' && i == i'
  {
    hide DecodeDir;
    assert DirOk(v.inodes, d, Entries(v, d)) && DirOk(v.inodes, d', Entries(v, d'));
    assert EntryOk(v.inodes, d, Entries(v, d)[i]) && EntryOk(v.inodes, d', Entries(v, d')[i']);
  }

  // ---------------------------------------------------------------- where cd goes

  /** Walking along two paths, one after the other. */
  lemma {:induction false} WalkConcat(v: Volume, i: U32, a: Path, b: Path)
    ensures Walk(v, i, a + b) == Walk(v, Walk(v, i, a), b)
    decreases |b|
  {
    hide DecodeDir, Lookup;
    if b == [] {
      assert a + b == a;
    } else {
      assert Parent(a + b) == a + Parent(b) && Last(a + b) == Last(b);
      WalkConcat(v, i, a, Parent(b));
      WalkSplit(v, i, a + b);
      WalkSplit(v, Walk(v, i, a), b);
    }
  }

  /** Where a path leads that is taken from the root if it begins with a slash, and from the current directory if not. */
  function Target(v: Volume, path: Str, cwd: Str): U32 {
    Walk(v, if path != [] && path[0] == 47 then v.sb.rootInode else Resolve(v, Comps(cwd)), Comps(path))
  }

  lemma AbsoluteLeads(v: Volume, path: Str, cwd: Str)
    ensures Resolve(v, Comps(Absolute(path, cwd))) == Target(v, path, cwd)
    ensures cwd != [] && cwd[0] == 47 ==> Absolute(path, cwd) != [] && Absolute(path, cwd)[0] == 47
  {
    hide Comps, Walk;
    if path == [] || path[0] != 47 {
      CompsSnoc([], SLASH);
      if cwd == ROOT {
        CompsConcat(ROOT, path);
        assert [] + Comps(path) == Comps(path);
      } else {
        CompsConcat(cwd + [SLASH], path);
        CompsSnoc(cwd, SLASH);
      }
      WalkConcat(v, v.sb.rootInode, Comps(cwd), Comps(path));
      NoSteps(v, v.sb.rootInode);
      CompsOfRoot();
      assert Comps(cwd) + Comps(path) == Comps(Absolute(path, cwd));
    }
  }

  lemma NoSteps(v: Volume, i: U32)
    ensures Walk(v, i, []) == i
  {
  }

  lemma CompsOfRoot()
    ensures Comps([47]) == []
  {
    CompsSnoc([], SLASH);
  }

  /** Where `cd` goes. `..` cuts the last component off the text, or only a trailing slash. Any other path leads from the
      root or from the current directory; if that is to a directory, the new text leads there, and otherwise the call fails
      and the text stays. */
  lemma ChangeDirGoes(v: Volume, path: Str, cwd: Str)
    requires cwd != [] && cwd[0] == 47
    ensures var (c, ok) := ChangeDir(v, path, cwd); var q := Target(v, path, cwd);
      if path == [46, 46] then
        && ok && Comps(c) == (if cwd[|cwd| - 1] == 47 then Comps(cwd) else Parent(Comps(cwd)))
        && (cwd == [47] ==> c == cwd)
      else
        && (ok <==> q != NOT_FOUND && KindOf(v, q) == DIR)
        && (ok ==> Resolve(v, Comps(c)) == q)
        && (!ok ==> c == cwd)
  {
    hide Comps, Walk, StripLast, Absolute;
    assert [46, 46] == UP && [47] == ROOT;
    AbsoluteLeads(v, path, cwd);
    StripLastCuts(cwd);
  }

  /** A canonical text stays canonical: after `..`, after a canonical absolute path, and after names joined by single slashes. */
  lemma ChangeDirCanonical(v: Volume, path: Str, cwd: Str, ps: Path)
    requires cwd == Canon(Comps(cwd)) && IsPath(ps) && ps != []
    requires path == [46, 46] || path == Canon(ps) || [47] + path == Canon(ps)
    ensures var c := ChangeDir(v, path, cwd).0; c == Canon(Comps(c))
  {
    hide Comps, Walk, DecodeDir, Resolve, StripLast, Absolute, Canon, ResolvesToDir;
    assert [46, 46] == UP;
    var cs := Comps(cwd);
    CanonOfRoot();
    if path == UP {
      if cs != [] {
        CanonStrips(cs);
        CompsOfCanon(Parent(cs));
      }
    } else {
      AbsoluteCanonical(path, cwd, ps);
      CompsOfCanon(ps);
      CompsOfCanon(cs + ps);
    }
  }

  lemma CanonOfRoot()
    ensures Canon([]) == ROOT
  {
  }

  lemma AbsoluteCanonical(path: Str, cwd: Str, ps: Path)
    requires cwd == Canon(Comps(cwd)) && IsPath(ps) && ps != [] && (path == Canon(ps) || [47] + path == Canon(ps))
    ensures Absolute(path, cwd) == if path == Canon(ps) then path else Canon(Comps(cwd) + ps)
  {
    hide Comps;
    var cs := Comps(cwd);
    SlashedEndsInWord(ps);
    if path != Canon(ps) {
      assert Slashed(ps) == [47] + path;
      SlashedConcat(cs, ps);
      FirstIsNoSlash(ps);
      assert path[0] == Slashed(ps)[1];
      if cs == [] {
        assert cs + ps == ps;
      } else {
        SlashedEndsInWord(cs);
        assert cwd + [SLASH] + path == cwd + ([47] + path);
      }
    }
  }

  lemma {:induction false} FirstIsNoSlash(ps: Path)
    requires IsPath(ps) && ps != []
    ensures |Slashed(ps)| > 1 && Slashed(ps)[1] != 47
    decreases |ps|
  {
    if |ps| == 1 {
      assert Slashed(ps[..0]) == [];
      assert Slashed(ps) == [47] + ps[0] && ps[0][0] in ps[0];
    } else {
      FirstIsNoSlash(ps[..|ps| - 1]);
    }
  }

  /** Cutting a canonical text at its last slash. */
  lemma CanonStrips(cs: Path)
    requires IsPath(cs) && cs != []
    ensures Canon(cs) != ROOT && StripLast(Canon(cs)) == Canon(Parent(cs))
  {
    hide Comps;
    SlashedEndsInWord(cs);
    var n, front := Slashed(cs), Slashed(Parent(cs));
    assert n == front + [47] + Last(cs) && IsComponent(Last(cs));
    var at := LastSlashAt(n, |n|);
    assert n[|front|] == SLASH;
    assert forall k | |front| < k < |n| :: n[k] == Last(cs)[k - |front| - 1] && n[k] in Last(cs);
    assert at == |front|;
    assert n[..at] == front;
    if Parent(cs) != [] {
      SlashedEndsInWord(Parent(cs));
    }
  }

  lemma StripLastCuts(cwd: Str)
    requires cwd != [] && cwd[0] == 47
    ensures var c := StripLast(cwd);
      && c != [] && c[0] == 47 && |c| <= |cwd|
      && Comps(c) == if cwd[|cwd| - 1] == 47 then Comps(cwd) else Parent(Comps(cwd))
    ensures Comps(ROOT) == []
  {
    hide Comps;
    CompsOfRoot();
    var at := LastSlashAt(cwd, |cwd|);
    assert exists k :: 0 <= k < |cwd| && cwd[k] == SLASH by { assert cwd[0] == SLASH; }
    var q, w := cwd[..at], cwd[at + 1..];
    assert SLASH !in w;
    assert cwd == q + [SLASH] + w;
    CompsAfterSlash(q, w);
    if at == 0 {
      assert q == [];
      NoText();
    }
    if w == [] {
      assert Comps(q) + [] == Comps(q);
    } else {
      assert cwd[|cwd| - 1] == Last(w) && Last(w) in w;
      assert Parent(Comps(q) + [w]) == Comps(q);
    }
  }

  // ---------------------------------------------------------------- scoped runs

  /** Creating calls name no directory to be replaced and put no `.` or `..` below a missing component. */
  ghost predicate ScopedOp(v: Volume, op: Op) {
    match op
    case MkDir(path) => PlainTail(v, Comps(path))
    case Write(path, data) => PlainTail(v, Comps(path)) && !ResolvesToDir(v, Comps(path))
    case _ => true
  }

  ghost predicate Scoped(s: Session, ops: seq<Op>)
    decreases |ops|
  {
    ops == [] || (ScopedOp(s.fs, ops[0]) && Scoped(Perform(s, ops[0]), ops[1..]))
  }

  /** The current directory is an absolute path to an existing directory. */
  ghost predicate CwdOk(s: Session) {
    s.cwd != [] && s.cwd[0] == SLASH && ResolvesToDir(s.fs, Comps(s.cwd))
  }

  /** Every prefix of a path that resolves is a directory. */
  lemma ParentIsDir(v: Volume, cs: Path)
    requires Inv(v) && ResolvesToDir(v, cs)
    ensures ResolvesToDir(v, Parent(cs))
  {
    hide DecodeDir;
    if cs != [] {
      PrefixResolves(v, v.sb.rootInode, cs, |cs| - 1);
    }
  }

  lemma StripLastOk(v: Volume, cwd: Str)
    requires Inv(v) && cwd != [] && cwd[0] == SLASH && ResolvesToDir(v, Comps(cwd))
    ensures var c := StripLast(cwd); c != [] && c[0] == SLASH && ResolvesToDir(v, Comps(c))
  {
    hide DecodeDir, Comps, Walk, StripLast;
    StripLastCuts(cwd);
    ParentIsDir(v, Comps(cwd));
  }

  lemma RootOk(v: Volume)
    requires Inv(v)
    ensures ResolvesToDir(v, Comps(ROOT))
  {
    CompsSnoc([], SLASH);
  }

  /** `cd` keeps the current directory on an existing directory. */
  lemma ChangeDirOk(v: Volume, path: Str, cwd: Str)
    requires Inv(v) && CwdOk(Session(v, cwd))
    ensures CwdOk(Session(v, ChangeDir(v, path, cwd).0))
  {
    hide DecodeDir, Comps, Walk, StripLast;
    StripLastOk(v, cwd);
  }

  lemma DirStays(v: Volume, w: Volume, gone: set<int>, cs: Path)
    requires Inv(v) && Extends(v, w, gone) && ResolvesToDir(v, cs)
    ensures ResolvesToDir(w, cs)
  {
    hide Walk, DecodeDir;
    ResolveLands(v, cs);
    if Resolve(v, cs) !in gone {
      ResolveKept(v, w, gone, cs);
    }
  }

  lemma ScopedPerformKeeps(s: Session, op: Op)
    requires Inv(s.fs) && s.fs.bitmap[0] && Synced(s.fs) && Unique(s.fs) && CwdOk(s) && ScopedOp(s.fs, op)
    ensures var r := Perform(s, op);
      Unique(r.fs) && CwdOk(r) && (HollowBin(s.fs) ==> HollowBin(r.fs))
  {
    hide CreateDir, CreateFile, DeleteFile, Synced, Inv, Unique, Extends, Comps, DecodeDir, Walk, HollowBin, ChangeDir, AfterCut;
    var v, cs := s.fs, Comps(s.cwd);
    var w := Perform(s, op).fs;
    match op {
      case MkDir(path) =>
        CreateDirPlain(v, Comps(path));
        CreateDirKeepsUnique(v, Comps(path));
        DirStays(v, w, {}, cs);
        if HollowBin(v) { HollowBinKept(v, w, {}); }
      case Write(path, data) =>
        CreateFileExtends(v, Comps(path), data);
        DirStays(v, w, Replaced(v, Comps(path)), cs);
        if HollowBin(v) { HollowBinKept(v, w, Replaced(v, Comps(path))); }
      case Remove(path) =>
        var gone: set<int> := if ResolvesToFile(v, Comps(path)) then {Resolve(v, Comps(path))} else {};
        DeleteFileKeeps(v, Comps(path));
        DeleteFileUnique(v, Comps(path));
        DirStays(v, w, gone, cs);
        if HollowBin(v) { HollowBinKept(v, w, gone); }
      case ChangeTo(path) =>
        ChangeDirOk(v, path, s.cwd);
      case Reboot =>
        RebootScoped(v, cs);
      case CutRemove(path, k) =>
        CutKeeps(v, Comps(path), k);
        DirStays(v, w, Replaced(v, Comps(path)), cs);
        if HollowBin(v) { HollowBinKept(v, w, Replaced(v, Comps(path))); }
    }
  }

  lemma RebootScoped(v: Volume, cs: Path)
    requires Inv(v) && Synced(v) && Unique(v)
    ensures var r := Reload(v.disk);
      Unique(r) && ResolvesToDir(r, cs) == ResolvesToDir(v, cs) && (HollowBin(v) ==> HollowBin(r))
  {
    hide Reload, DecodeDir, Walk, Unique;
    var r := Reload(v.disk);
    ReloadSame(v);
    RebootUnique(v);
    RebootKeepsPaths(v, cs, 0);
    RebootKeepsPaths(v, [BIN], 0);
    ResolveLands(v, [BIN]);
    var i := Resolve(v, [BIN]);
    assert i < MAX_INODES ==> SameNode(v.inodes[i], r.inodes[i]);
  }

  lemma {:induction false} ScopedRunKeeps(s: Session, ops: seq<Op>)
    requires Inv(s.fs) && s.fs.bitmap[0] && Synced(s.fs) && Unique(s.fs) && CwdOk(s) && Scoped(s, ops)
    ensures var r := Run(s, ops);
      Unique(r.fs) && CwdOk(r) && (HollowBin(s.fs) ==> HollowBin(r.fs))
    decreases |ops|
  {
    hide Perform, Inv, Synced, Unique, HollowBin, CwdOk;
    if ops != [] {
      PerformKeeps(s, ops[0]);
      ScopedPerformKeeps(s, ops[0]);
      ScopedRunKeeps(Perform(s, ops[0]), ops[1..]);
    }
  }

  /** Along every scoped run names stay unique and the current directory always resolves to a directory. */
  lemma CwdOverRuns(d: Disk, text: TextArea, username: Str, ops: seq<Op>)
    requires NoDots(Comps(username)) && Scoped(Start(d, text, username), ops)
    ensures var r := Run(Start(d, text, username), ops);
      Unique(r.fs) && CwdOk(r)
  {
    hide Run, Install, Synced, Conserved, Inv, Scoped, Unique, HollowBin, NoDots;
    InstallKeeps(d, text, username);
    RootOk(Install(d, text, username));
    ScopedRunKeeps(Start(d, text, username), ops);
  }

  /** Along every scoped run nothing below `/bin` ever resolves: its entries go to block 0 and are lost. */
  lemma BinStaysEmpty(d: Disk, text: TextArea, username: Str, ops: seq<Op>, cs: Path)
    requires NoDots(Comps(username)) && Scoped(Start(d, text, username), ops) && cs != []
    ensures var v := Run(Start(d, text, username), ops).fs;
      ResolvesToDir(v, [BIN]) && Resolve(v, [BIN] + cs) == NOT_FOUND
  {
    hide Run, Install, Synced, Conserved, Inv, Scoped, Unique, NoDots, DecodeDir;
    InstallKeeps(d, text, username);
    RootOk(Install(d, text, username));
    ScopedRunKeeps(Start(d, text, username), ops);
    var v := Run(Start(d, text, username), ops).fs;
    assert ([BIN] + cs)[..1] == [BIN];
    if Resolve(v, [BIN] + cs) != NOT_FOUND {
      PrefixResolves(v, v.sb.rootInode, [BIN] + cs, 1);
    }
  }
}
