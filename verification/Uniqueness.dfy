/** Exactly which calls keep the names inside every directory unique. */
module Uniqueness {
  import opened Bytes
  import opened Layout
  import opened Paths
  import opened Volumes
  import opened Invariants
  import opened Isolation
  import opened Growth
  import opened Directories
  import opened Mkdir
  import opened Files
  import opened Names

  /** Directory `d` lists two directories under one name. */
  ghost predicate DoubledAt(v: Volume, d: U32, i: nat, j: nat) {
    && OpenDir(v.inodes, d) && i < j < MAX_DIR_ENTRIES
    && ListsDir(v.inodes, Entries(v, d)[i]) && ListsDir(v.inodes, Entries(v, d)[j])
    && CStr(Entries(v, d)[i].name) == CStr(Entries(v, d)[j].name)
  }

  ghost predicate Doubled(v: Volume) { exists d, i, j :: DoubledAt(v, d, i, j) }

  lemma DoubledIsNotUnique(v: Volume)
    requires Doubled(v)
    ensures !Unique(v)
  {
    hide DecodeDir, CStr;
    var d, i, j :| DoubledAt(v, d, i, j);
    assert !Distinct(Entries(v, d));
  }

  /** Once two directories share a name they do for good. */
  lemma DoubledStays(v: Volume, w: Volume)
    requires Doubled(v) && DirsKept(v, w)
    ensures Doubled(w)
  {
    hide DecodeDir, CStr;
    var d, i, j :| DoubledAt(v, d, i, j);
    assert DirKept(v, w, d);
    assert DoubledAt(w, d, i, j);
  }

  lemma KeptUnique(v: Volume, w: Volume)
    requires Unique(v)
    requires forall d: U32 | OpenDir(w.inodes, d) :: OpenDir(v.inodes, d) && Kept(v, w, d)
    ensures Unique(w)
  {
    hide DecodeDir, Distinct;
    forall d: U32 | OpenDir(w.inodes, d)
      ensures Entries(w, d) == Entries(v, d)
    {
      KeptEntries(v, w, d);
    }
    SameDirsUnique(v, w);
  }

  lemma RollbackUnique(v: Volume, u: Volume, n: U32)
    requires Inv(v) && Unique(v) && Grown(v, u, n) && NodeOk(u.inodes, n)
    ensures Unique(FreeInode(u, n))
  {
    hide DecodeDir, Unique;
    var r := FreeInode(u, n);
    GrownKept(v, u, n);
    ReleaseFromIs(u, n, 0);
    forall d: U32 | OpenDir(r.inodes, d)
      ensures OpenDir(v.inodes, d) && Kept(v, r, d)
    {
      assert d != n;
      assert Kept(v, u, d);
    }
    KeptUnique(v, r);
  }

  lemma MakeDirUnique(v: Volume, p: U32, name: Str)
    requires Inv(v) && Unique(v) && p < MAX_INODES && |name| < MAX_FILENAME
    ensures var (w, ok) := MakeDir(v, p, name);
      Unique(w) <==> !(ok && Clashes(v, p, name))
  {
    hide DecodeDir, EncodeDir, MakeDir, Prepared, SyncNodes, FreeInode, AddEntry, Unique, Clashes;
    if !LiveDir(v.inodes, p) {
      NotADir(v, p, name);
    } else {
      var (u, n, taken) := Prepared(v, p);
      PreparedKeeps(v, p);
      MakeDirIs(v, p, name);
      if n != NOT_FOUND {
        assert NodeOk(u.inodes, n);
        if taken {
          ListedUnique(v, u, p, name, n);
        } else {
          RollbackUnique(v, u, n);
        }
      }
    }
  }

  lemma StoreFileUnique(v: Volume, p: U32, name: Str, data: seq<Byte>)
    requires Inv(v) && Unique(v) && LiveDir(v.inodes, p) && |name| < MAX_FILENAME && |data| <= MAX_FILE_SIZE
    ensures var (w, ok) := StoreFile(v, p, name, data);
      Unique(w) <==> !(ok && Clashes(v, p, name))
  {
    hide DecodeDir, EncodeDir, StoreFile, Filled, SyncNodes, FreeInode, AddEntry, Distinct, Clashes;
    var (u, n, stored) := Filled(v, p, data);
    FilledKeeps(v, p, data);
    StoreFileIs(v, p, name, data);
    if n != NOT_FOUND {
      assert NodeOk(u.inodes, n);
      if stored {
        ListedUnique(v, u, p, name, n);
        var x := SyncNodes(AddEntry(u, p, name, n).0);
        MetadataWriteExtends(x, SyncSuper(x));
      } else {
        RollbackUnique(v, u, n);
      }
    }
  }

  /** Making `.` or `..` inside a fresh directory doubles that name. */
  lemma DotDoubles(v: Volume, p: U32, name: Str)
    requires Inv(v) && v.bitmap[0] && Fresh(v, p) && IsDot(name)
    ensures var (w, ok) := MakeDir(v, p, name);
      ok ==> Doubled(w)
  {
    hide DecodeDir, EncodeDir, MakeDir, Prepared, SyncNodes, FreeInode, AddEntry, FreeSlot, FindSlot, StrCpy, CStr, Inv, Roomy;
    var (u, n, taken) := Prepared(v, p);
    PreparedKeeps(v, p);
    MakeDirIs(v, p, name);
    if n != NOT_FOUND && taken {
      GrownKept(v, u, n);
      KeptEntries(v, u, p);
      ListedEntries(u, p, name, n);
      var w := SyncNodes(AddEntry(u, p, name, n).0);
      DotListed(v, w, p, name, n);
    }
  }

  lemma DotListed(v: Volume, w: Volume, p: U32, name: Str, n: U32)
    requires Inv(v) && Fresh(v, p) && IsDot(name) && LiveDir(w.inodes, n)
    requires forall i | Live(v.inodes, i) :: w.inodes[i] == v.inodes[i]
    requires FreeSlot(Entries(v, p)) < MAX_DIR_ENTRIES
    requires var es := Entries(v, p); var k := FreeSlot(es);
      ReadsBackAs(es[k := Entry(StrCpy(es[k].name, name), n, 1)], Entries(w, p))
    ensures Doubled(w)
  {
    hide DecodeDir, FreeSlot, FindSlot, StrCpy, CStr;
    var es := Entries(v, p);
    assert Used(es[0]) && Used(es[1]) && !Used(es[2]);
    assert FreeSlot(es) == 2;
    StrCpyRoundTrip(es[2].name, name);
    assert NodeOk(v.inodes, p);
    assert DoubledAt(w, p, if name == SELF then 0 else 1, 2);
  }

  // ---------------------------------------------------------------- whole paths

  lemma {:induction false} PrefixResolves(v: Volume, i: U32, cs: Path, k: nat)
    requires k <= |cs| && Walk(v, i, cs) != NOT_FOUND
    ensures Walk(v, i, cs[..k]) != NOT_FOUND
    ensures k < |cs| ==> Searchable(v, Walk(v, i, cs[..k]))
    decreases |cs|
  {
    hide DecodeDir;
    if k == |cs| {
      assert cs[..k] == cs;
    } else {
      WalkSplit(v, i, cs);
      if k == |cs| - 1 {
        assert cs[..k] == Parent(cs);
      } else {
        PrefixResolves(v, i, Parent(cs), k);
        assert Parent(cs)[..k] == cs[..k];
      }
    }
  }

  /** A successful mkdir keeps names unique exactly when no component below the existing part is `.` or `..`. */
  lemma CreateDirUnique(v: Volume, cs: Path)
    requires Inv(v) && v.bitmap[0] && Unique(v)
    ensures var (w, ok) := CreateDir(v, cs);
      && (PlainTail(v, cs) ==> Unique(w))
      && (ok ==> (Unique(w) <==> PlainTail(v, cs)))
  {
    hide Unique;
    if PlainTail(v, cs) {
      CreateDirKeepsUnique(v, cs);
    } else if CreateDir(v, cs).1 {
      CreateDirDoubles(v, cs);
      DoubledIsNotUnique(CreateDir(v, cs).0);
    }
  }

  lemma {:induction false} CreateDirKeepsUnique(v: Volume, cs: Path)
    requires Inv(v) && v.bitmap[0] && Unique(v) && PlainTail(v, cs)
    ensures Unique(CreateDir(v, cs).0)
    decreases |cs|
  {
    hide MakeDir, DecodeDir, EnsureDir, Unique, FindSlot, FreeSlot;
    if Name(cs) != [] && |Name(cs)| < MAX_FILENAME && Resolve(v, cs) == NOT_FOUND {
      var ps, name := Parent(cs), Name(cs);
      var (u, p) := EnsureDir(v, ps);
      EnsureDirPlain(v, cs);
      EnsureDirUpkept(v, ps);
      EnsureDirKeepsUnique(v, cs);
      if p != NOT_FOUND {
        MakeDirUnique(u, p, name);
        MissingDoesNotClash(u, p, name);
      }
    }
  }

  lemma {:induction false} EnsureDirKeepsUnique(v: Volume, cs: Path)
    requires Inv(v) && v.bitmap[0] && Unique(v) && PlainTail(v, cs) && cs != []
    ensures Unique(EnsureDir(v, Parent(cs)).0)
    decreases |cs|, 0
  {
    hide MakeDir, DecodeDir, Unique, CreateDir;
    var ps := Parent(cs);
    assert ps == cs[..|cs| - 1];
    assert forall k | 0 <= k < |ps| :: ps[..k] == cs[..k];
    CreateDirKeepsUnique(v, ps);
  }

  lemma MissingDoesNotClash(v: Volume, p: U32, name: Str)
    requires Step(v, p, name) == NOT_FOUND && Inv(v) && Live(v.inodes, p) && |name| < MAX_FILENAME
    ensures !Clashes(v, p, name)
  {
    hide DecodeDir, FindSlot, FreeSlot;
    if Searchable(v, p) {
      FoundIsLive(v, p, name);
    }
  }

  /** The other way: a dot below a missing component leaves a doubled name behind. */
  lemma {:induction false} CreateDirDoubles(v: Volume, cs: Path)
    requires Inv(v) && v.bitmap[0] && !PlainTail(v, cs) && CreateDir(v, cs).1
    ensures Doubled(CreateDir(v, cs).0)
    decreases |cs|
  {
    hide MakeDir, DecodeDir, Doubled, Inv, Upkept, DirsKept;
    var k :| 0 <= k < |cs| && Resolve(v, cs[..k]) == NOT_FOUND && IsDot(cs[k]);
    if Resolve(v, cs) != NOT_FOUND {
      PrefixResolves(v, v.sb.rootInode, cs, k);
    } else {
      EnsureDirDoubles(v, cs, k);
      var (u, p) := EnsureDir(v, Parent(cs));
      EnsureDirUpkept(v, Parent(cs));
      UpkeptInv(v, u);
      UpkeptBit(v, u);
      MakeDirDirsKept(u, p, Name(cs));
      if Doubled(u) {
        DoubledStays(u, MakeDir(u, p, Name(cs)).0);
      } else {
        DotDoubles(u, p, Name(cs));
      }
    }
  }

  lemma UpkeptBit(v: Volume, w: Volume)
    requires Upkept(v, w) && v.bitmap[0]
    ensures w.bitmap[0]
  {
  }

  lemma {:induction false} EnsureDirDoubles(v: Volume, cs: Path, k: nat)
    requires Inv(v) && v.bitmap[0] && k < |cs| && Resolve(v, cs[..k]) == NOT_FOUND && IsDot(cs[k])
    requires EnsureDir(v, Parent(cs)).1 != NOT_FOUND
    ensures var (u, p) := EnsureDir(v, Parent(cs));
      Doubled(u) || (Fresh(u, p) && IsDot(Name(cs)) && PlainTail(v, Parent(cs)))
    decreases |cs|, 0
  {
    hide MakeDir, DecodeDir, Doubled, Inv, Upkept;
    var ps := Parent(cs);
    assert forall q | 0 <= q <= |ps| :: ps[..q] == cs[..q];
    if Resolve(v, ps) != NOT_FOUND {
      PrefixResolves(v, v.sb.rootInode, ps, k);
    } else if k == |ps| && PlainTail(v, ps) {
      CreateDirPlain(v, ps);
    } else {
      assert !PlainTail(v, ps) by {
        assert k < |ps| ==> Resolve(v, ps[..k]) == NOT_FOUND && IsDot(ps[k]);
      }
      CreateDirDoubles(v, ps);
    }
  }
}
