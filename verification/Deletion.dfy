/** Deleting a file: exactly the paths to it stop resolving. */
module Deletion {
  import opened Bytes
  import opened Layout
  import opened Paths
  import opened Volumes
  import opened Invariants
  import opened Isolation
  import opened Growth
  import opened Directories
  import opened Files
  import opened Names

  /** Slot `k` of `es` is the only one naming `f`, and `r` is `es` with that slot cleared. */
  ghost predicate Cleared(es: DirBlock, f: U32, k: nat, r: DirBlock) {
    && k < 14 && Used(es[k]) && es[k].inode == f && !Used(es[14])
    && (forall i | 0 <= i < MAX_DIR_ENTRIES && i != k && Used(es[i]) :: es[i].inode != f)
    && ReadsBackAs(es[k := Entry(ZeroName(), f, 0)], r)
  }

  lemma LookupCleared(es: DirBlock, f: U32, k: nat, r: DirBlock, nm: Str)
    requires Cleared(es, f, k, r) && Distinct(es)
    ensures Lookup(r, nm) == if Lookup(es, nm) == f then NOT_FOUND else Lookup(es, nm)
  {
    hide FindSlot, CStr;
    var s, s' := FindSlot(es, nm), FindSlot(r, nm);
    assert forall q | 0 <= q < MAX_DIR_ENTRIES && Used(r[q]) :: q != k && r[q] == es[q];
    assert forall q | 0 <= q < MAX_DIR_ENTRIES && q != k && Used(es[q]) :: r[q] == es[q];
    if s < MAX_DIR_ENTRIES && s != k {
      assert r[s] == es[s];
    }
  }

  lemma ClearedRoom(es: DirBlock, f: U32, k: nat, r: DirBlock, nm: Str)
    requires Cleared(es, f, k, r) && Distinct(es) && Named(es[k], nm)
    ensures FreeSlot(r) < 14 && FindSlot(r, nm) == MAX_DIR_ENTRIES
  {
    hide FindSlot, FreeSlot, CStr;
    assert !Used(r[k]);
    assert forall q | 0 <= q < MAX_DIR_ENTRIES && Used(r[q]) :: q != k && r[q] == es[q];
  }

  lemma ClearedDistinct(es: DirBlock, f: U32, k: nat, r: DirBlock)
    requires Cleared(es, f, k, r) && Distinct(es)
    ensures Distinct(r)
  {
    hide CStr;
    assert forall q | 0 <= q < MAX_DIR_ENTRIES && Used(r[q]) :: q != k && r[q] == es[q];
  }

  /** The volume after a delete, as far as directories are concerned. */
  lemma DeleteFileEntries(v: Volume, cs: Path)
    requires Inv(v) && ResolvesToFile(v, cs)
    ensures var p, f, w := Resolve(v, Parent(cs)), Resolve(v, cs), DeleteFile(v, cs).0;
      && p < MAX_INODES && OpenDir(v.inodes, p)
      && (forall i: U32 | LiveDir(v.inodes, i) :: w.inodes[i] == v.inodes[i])
      && (forall i: U32 | OpenDir(w.inodes, i) :: OpenDir(v.inodes, i))
      && (forall i: U32 | LiveDir(v.inodes, i) && i != p :: Entries(w, i) == Entries(v, i))
      && (var k := SlotOf(Entries(v, p), f); Cleared(Entries(v, p), f, k, Entries(w, p)) && Named(Entries(v, p)[k], Name(cs)))
  {
    hide DecodeDir, EncodeDir, Walk, SlotOf, RemoveEntry, FreeInode, SyncNodes, FindSlot, CStr;
    FileIsListed(v, cs);
    var p, f := Resolve(v, Parent(cs)), Resolve(v, cs);
    var es, x, y := Entries(v, p), RemoveEntry(v, p, f), RemoveEntry(FreeInode(v, f), p, f);
    RemoveEntryEffect(v, p, f);
    FreeThenRemove(v, p, f);
    Freed(RemoveEntry(v, p, f), f);
    SyncNodesFrame(y);
    OnlyEntry(v, p, f, Name(cs));
    DeletedEntries(v, x, DeleteFile(v, cs).0, p, f);
  }

  lemma DeletedEntries(v: Volume, x: Volume, w: Volume, p: U32, f: U32)
    requires f < MAX_INODES && p < MAX_INODES && v.inodes[f].kind == FILE && w.inodes[f].kind == FREE && LiveDir(v.inodes, p)
    requires forall i | Live(v.inodes, i) && i != p :: Kept(v, x, i)
    requires x == v.(disk := x.disk)
    requires forall i | 0 <= i < MAX_INODES && i != f :: w.inodes[i] == v.inodes[i]
    requires forall s | DATA_START_SECTOR <= s < DISK_SECTORS :: w.disk[s] == x.disk[s]
    ensures forall i: U32 | LiveDir(v.inodes, i) :: w.inodes[i] == v.inodes[i]
    ensures forall i: U32 | OpenDir(w.inodes, i) :: OpenDir(v.inodes, i)
    ensures forall i: U32 | LiveDir(v.inodes, i) && i != p :: Entries(w, i) == Entries(v, i)
    ensures Entries(w, p) == Entries(x, p)
  {
    hide DecodeDir;
    forall i: U32 | LiveDir(v.inodes, i) && i != p
      ensures Entries(w, i) == Entries(v, i)
    {
      KeptEntries(v, x, i);
    }
  }

  lemma OnlyEntry(v: Volume, p: U32, f: U32, name: Str)
    requires Inv(v) && OpenDir(v.inodes, p) && Live(v.inodes, f) && v.inodes[f].kind == FILE
    requires Step(v, p, name) == f
    ensures var es := Entries(v, p); var k := SlotOf(es, f);
      && k < 14 && Named(es[k], name) && !Used(es[14])
      && (forall i | 0 <= i < MAX_DIR_ENTRIES && i != k && Used(es[i]) :: es[i].inode != f)
  {
    hide DecodeDir, SlotOf, FindSlot, CStr;
    var es := Entries(v, p);
    var k, s := SlotOf(es, f), FindSlot(es, name);
    LastEntryUnused(ReadBlock(v, FirstBlock(v, p)));
    assert NodeOk(v.inodes, p);
    assert DirOk(v.inodes, p, es);
    assert s >= 2 && k >= 2;
    assert k == s;
  }

  lemma DeleteFileUnique(v: Volume, cs: Path)
    requires Inv(v) && Unique(v)
    ensures Unique(DeleteFile(v, cs).0)
  {
    hide DecodeDir, Distinct, SlotOf, DeleteFile, Cleared;
    if ResolvesToFile(v, cs) {
      var p, f, w := Resolve(v, Parent(cs)), Resolve(v, cs), DeleteFile(v, cs).0;
      DeleteFileEntries(v, cs);
      ClearedDistinct(Entries(v, p), f, SlotOf(Entries(v, p), f), Entries(w, p));
      SameDirsUnique(v, w);
    } else {
      assert DeleteFile(v, cs).0 == v by { DeleteFileKeeps(v, cs); }
    }
  }

  lemma DeleteFileSteps(v: Volume, cs: Path, i: U32, nm: Str)
    requires Inv(v) && Unique(v) && ResolvesToFile(v, cs) && Live(v.inodes, i)
    ensures var f, w := Resolve(v, cs), DeleteFile(v, cs).0;
      Step(w, i, nm) == if Step(v, i, nm) == f then NOT_FOUND else Step(v, i, nm)
  {
    hide DecodeDir, SlotOf, DeleteFile, Cleared, Lookup, Distinct, Walk, Inv, Extends;
    var p, f, w := Resolve(v, Parent(cs)), Resolve(v, cs), DeleteFile(v, cs).0;
    DeleteFileKeeps(v, cs);
    if !Searchable(v, i) {
      NodeKeptKind(v, w, f, i);
    } else {
      DeleteFileEntries(v, cs);
      DeletedLookups(v, cs, i, nm);
    }
  }

  lemma DeletedLookups(v: Volume, cs: Path, i: U32, nm: Str)
    requires Inv(v) && Unique(v) && ResolvesToFile(v, cs) && OpenDir(v.inodes, i)
    ensures var f, w := Resolve(v, cs), DeleteFile(v, cs).0;
      Lookup(Entries(w, i), nm) == if Lookup(Entries(v, i), nm) == f then NOT_FOUND else Lookup(Entries(v, i), nm)
  {
    hide DecodeDir, SlotOf, DeleteFile, Cleared, Lookup, Distinct, Walk, Inv;
    var p, f, w := Resolve(v, Parent(cs)), Resolve(v, cs), DeleteFile(v, cs).0;
    DeleteFileEntries(v, cs);
    if i == p {
      LookupCleared(Entries(v, p), f, SlotOf(Entries(v, p), f), Entries(w, p), nm);
    } else {
      FileIsListed(v, cs);
      FileElsewhere(v, i, p, f, nm);
    }
  }

  lemma NodeKeptKind(v: Volume, w: Volume, f: U32, i: U32)
    requires Live(v.inodes, i) && Extends(v, w, {f as int}) && !Live(w.inodes, f)
    ensures !Searchable(v, i) ==> !Searchable(w, i)
  {
    if i != f {
      assert NodeKept(v, w, i);
    }
  }

  lemma FileElsewhere(v: Volume, i: U32, p: U32, f: U32, nm: Str)
    requires Inv(v) && OpenDir(v.inodes, i) && i != p && Live(v.inodes, f) && v.inodes[f].kind == FILE && v.inodes[f].parent == p
    ensures Lookup(Entries(v, i), nm) != f
  {
    hide DecodeDir, FindSlot, CStr;
    var es := Entries(v, i);
    assert NodeOk(v.inodes, i);
    assert DirOk(v.inodes, i, es);
    var k := FindSlot(es, nm);
    if 2 <= k < MAX_DIR_ENTRIES {
      assert EntryOk(v.inodes, i, es[k]);
    }
  }

  /** After a delete exactly the paths that resolved to the file do not resolve; all others are as before. */
  lemma DeleteExact(v: Volume, cs: Path, qs: Path)
    requires Inv(v) && Unique(v) && ResolvesToFile(v, cs)
    ensures var f, w := Resolve(v, cs), DeleteFile(v, cs).0;
      Resolve(w, qs) == if Resolve(v, qs) == f then NOT_FOUND else Resolve(v, qs)
  {
    hide DeleteFile, DecodeDir;
    DeleteFileKeeps(v, cs);
    ResolveLands(v, cs);
    DeleteWalk(v, cs, 0, qs);
  }

  lemma {:induction false} DeleteWalk(v: Volume, cs: Path, i: U32, qs: Path)
    requires Inv(v) && Unique(v) && ResolvesToFile(v, cs) && Live(v.inodes, i) && i != Resolve(v, cs)
    ensures var f, w := Resolve(v, cs), DeleteFile(v, cs).0;
      Walk(w, i, qs) == if Walk(v, i, qs) == f then NOT_FOUND else Walk(v, i, qs)
    decreases |qs|
  {
    hide DeleteFile, DecodeDir;
    if qs != [] {
      var f, y := Resolve(v, cs), Step(v, i, qs[0]);
      DeleteFileSteps(v, cs, i, qs[0]);
      StepLands(v, i, qs[0]);
      if y == f {
        FileIsLeaf(v, f, qs[1..]);
      } else if y != NOT_FOUND {
        DeleteWalk(v, cs, y, qs[1..]);
      }
    }
  }

  lemma FileIsLeaf(v: Volume, f: U32, qs: Path)
    requires f < MAX_INODES && v.inodes[f].kind == FILE
    ensures Walk(v, f, qs) == if qs == [] then f else NOT_FOUND
  {
  }
}
