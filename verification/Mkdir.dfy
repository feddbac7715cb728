/** `fs_create_dir` over whole paths. */
module Mkdir {
  import opened Bytes
  import opened Layout
  import opened Paths
  import opened Volumes
  import opened Invariants
  import opened Isolation
  import opened Growth
  import opened Directories

  // ---------------------------------------------------------------- whatever the path

  lemma {:induction false} CreateDirUpkept(v: Volume, cs: Path)
    requires Inv(v)
    ensures Upkept(v, CreateDir(v, cs).0)
    decreases |cs|, 0
  {
    hide MakeDir, Upkept, Inv;
    UpkeptRefl(v);
    if Name(cs) != [] && |Name(cs)| < MAX_FILENAME && Resolve(v, cs) == NOT_FOUND {
      var (w, p) := EnsureDir(v, Parent(cs));
      EnsureDirUpkept(v, Parent(cs));
      if p != NOT_FOUND {
        UpkeptInv(v, w);
        MakeDirKeeps(w, p, Name(cs));
        UpkeptTrans(v, w, MakeDir(w, p, Name(cs)).0);
      }
    }
  }

  lemma {:induction false} EnsureDirUpkept(v: Volume, cs: Path)
    requires Inv(v)
    ensures var (w, p) := EnsureDir(v, cs);
      Upkept(v, w) && (p == NOT_FOUND || (Live(w.inodes, p) && p == Resolve(w, cs)))
    decreases |cs|, 1
  {
    hide CreateDir;
    ResolveLands(v, cs);
    if Resolve(v, cs) == NOT_FOUND {
      CreateDirUpkept(v, cs);
      ResolveLands(CreateDir(v, cs).0, cs);
    }
  }

  lemma UpkeptRefl(v: Volume)
    requires Inv(v)
    ensures Upkept(v, v)
  {
  }

  lemma UpkeptInv(v: Volume, w: Volume)
    requires Upkept(v, w)
    ensures Inv(w)
  {
  }

  lemma UpkeptTrans(u: Volume, v: Volume, w: Volume)
    requires Upkept(u, v) && Upkept(v, w)
    ensures Upkept(u, w)
  {
  }

  // ---------------------------------------------------------------- paths without dots below what exists

  predicate IsDot(name: Str) { name == SELF || name == UP }

  /** No component below the part of the path that resolves is `.` or `..`. */
  ghost predicate PlainTail(v: Volume, cs: Path) {
    forall k | 0 <= k < |cs| && Resolve(v, cs[..k]) == NOT_FOUND :: !IsDot(cs[k])
  }

  /** The directory `x` has just been made: it lists only itself and its parent. */
  ghost predicate Fresh(v: Volume, x: U32) {
    Searchable(v, x) && FreshDir(v.inodes, x, Entries(v, x))
  }

  lemma FreshIsRoomy(v: Volume, x: U32, name: Str)
    requires Fresh(v, x) && !IsDot(name)
    ensures Roomy(v, x, name) && !Shadows(v, x, name)
    ensures Step(v, x, name) == NOT_FOUND
  {
    hide DecodeDir, FindSlot, FreeSlot;
    var es := Entries(v, x);
    assert Used(es[0]) && Used(es[1]) && !Used(es[2]);
    assert forall i | 0 <= i < MAX_DIR_ENTRIES :: !Named(es[i], name);
  }

  lemma MissingDoesNotShadow(v: Volume, p: U32, name: Str)
    requires Step(v, p, name) == NOT_FOUND && Inv(v) && Live(v.inodes, p) && |name| < MAX_FILENAME
    ensures !Shadows(v, p, name)
  {
    hide DecodeDir, FindSlot, FreeSlot;
    if Searchable(v, p) {
      FoundIsLive(v, p, name);
    }
  }

  lemma FoundIsLive(v: Volume, p: U32, name: Str)
    requires Inv(v) && OpenDir(v.inodes, p)
    ensures FindSlot(Entries(v, p), name) < MAX_DIR_ENTRIES ==> Lookup(Entries(v, p), name) < MAX_INODES
  {
    hide DecodeDir, FindSlot;
    var es := Entries(v, p);
    var k := FindSlot(es, name);
    assert NodeOk(v.inodes, p);
    assert DirOk(v.inodes, p, es);
    if 2 <= k < MAX_DIR_ENTRIES {
      assert EntryOk(v.inodes, p, es[k]);
    }
  }

  /** What a successful `MakeDir` does to its own name. */
  lemma MakeDirResult(v: Volume, p: U32, name: Str)
    requires Inv(v) && v.bitmap[0] && p < MAX_INODES && |name| < MAX_FILENAME
    ensures var (w, ok) := MakeDir(v, p, name);
      ok ==> var x := Step(w, p, name);
        if Roomy(v, p, name) then Fresh(w, x) && v.inodes[x].kind == FREE else x == Step(v, p, name)
  {
    hide DecodeDir, EncodeDir, MakeDir, Prepared, SyncNodes, FreeInode, AddEntry, Roomy;
    if !LiveDir(v.inodes, p) {
      NotADir(v, p, name);
      return;
    }
    var (u, n, taken) := Prepared(v, p);
    PreparedKeeps(v, p);
    MakeDirIs(v, p, name);
    if n != NOT_FOUND && taken {
      GrownKept(v, u, n);
      SameRoom(v, u, p, name);
      KeptEntries(v, u, p);
      ListedResult(u, p, name, n);
    }
  }

  lemma ListedResult(u: Volume, p: U32, name: Str, n: U32)
    requires Inv(u) && LiveDir(u.inodes, p) && Orphan(u, n) && u.inodes[n].parent == p && n != p && |name| < MAX_FILENAME
    ensures var w := SyncNodes(AddEntry(u, p, name, n).0);
      && Step(w, p, name) == (if Roomy(u, p, name) then n else Step(u, p, name))
      && w.inodes == u.inodes && w.bitmap == u.bitmap && Entries(w, n) == Entries(u, n)
  {
    hide DecodeDir, EncodeDir, SyncNodes, AddEntry, Roomy;
    var x := AddEntry(u, p, name, n).0;
    AddEntryEffect(u, p, name, n);
    KeptEntries(u, x, n);
    SyncNodesFrame(x);
    MetadataWriteExtends(x, SyncNodes(x));
  }

  /** mkdir of a path with a plain tail: nothing else moves, and a path that was missing is either an empty
      directory afterwards or, when its parent had no room for the entry, still missing. */
  lemma {:induction false} CreateDirPlain(v: Volume, cs: Path)
    requires Inv(v) && v.bitmap[0] && PlainTail(v, cs)
    ensures var (w, ok) := CreateDir(v, cs);
      && Extends(v, w, {})
      && (ok && Resolve(v, cs) == NOT_FOUND ==>
            if Resolve(v, Parent(cs)) == NOT_FOUND || Roomy(v, Resolve(v, Parent(cs)), Name(cs))
            then Fresh(w, Resolve(w, cs)) else Resolve(w, cs) == NOT_FOUND)
    decreases |cs|
  {
    hide MakeDir, DecodeDir, Roomy, Fresh, Shadows, EnsureDir, Extends;
    AllKeptExtends(v, v);
    if Name(cs) != [] && |Name(cs)| < MAX_FILENAME && Resolve(v, cs) == NOT_FOUND {
      var ps, name := Parent(cs), Name(cs);
      var (u, p) := EnsureDir(v, ps);
      EnsureDirPlain(v, cs);
      EnsureDirUpkept(v, ps);
      if p != NOT_FOUND {
        var (w, ok) := MakeDir(u, p, name);
        MakeDirKeeps(u, p, name);
        MakeDirResult(u, p, name);
        ExtendsThen(v, u, w, {});
        ResolveKept(u, w, {}, ps);
        WalkSplit(w, w.sb.rootInode, cs);
      }
    }
  }

  lemma {:induction false} EnsureDirPlain(v: Volume, cs: Path)
    requires Inv(v) && v.bitmap[0] && PlainTail(v, cs) && cs != [] && |Name(cs)| < MAX_FILENAME
    requires Resolve(v, cs) == NOT_FOUND
    ensures var (u, p) := EnsureDir(v, Parent(cs));
      && Extends(v, u, {})
      && (p != NOT_FOUND ==> !Shadows(u, p, Name(cs)) && Step(u, p, Name(cs)) == NOT_FOUND)
      && (p != NOT_FOUND && Resolve(v, Parent(cs)) == NOT_FOUND ==> Roomy(u, p, Name(cs)))
      && (Resolve(v, Parent(cs)) != NOT_FOUND ==> u == v && p == Resolve(v, Parent(cs)))
    decreases |cs|, 0
  {
    hide MakeDir, DecodeDir, Roomy, Shadows, Extends;
    var ps, name := Parent(cs), Name(cs);
    AllKeptExtends(v, v);
    ResolveLands(v, ps);
    WalkSplit(v, v.sb.rootInode, cs);
    assert ps == cs[..|cs| - 1];
    if Resolve(v, ps) != NOT_FOUND {
      MissingDoesNotShadow(v, Resolve(v, ps), name);
    } else {
      assert forall k | 0 <= k < |ps| :: ps[..k] == cs[..k];
      CreateDirPlain(v, ps);
      var (u, p) := EnsureDir(v, ps);
      if p != NOT_FOUND {
        FreshIsRoomy(u, p, name);
      }
    }
  }

  lemma RoomyIsDir(v: Volume, p: U32, name: Str)
    requires Roomy(v, p, name)
    ensures KindOf(v, p) == DIR && p < MAX_INODES
  {
  }

  lemma CreateDirIsMake(v: Volume, cs: Path)
    requires cs != [] && |Name(cs)| < MAX_FILENAME && Name(cs) != [] && Resolve(v, cs) == NOT_FOUND
    ensures var (u, p) := EnsureDir(v, Parent(cs)); p != NOT_FOUND ==> CreateDir(v, cs) == MakeDir(u, p, Name(cs))
  {
    hide MakeDir, Walk, EnsureDir;
  }
}
