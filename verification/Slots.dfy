/** Which slot of its directory a new entry takes. */
module Slots {
  import opened Bytes
  import opened Layout
  import opened Paths
  import opened Volumes
  import opened Invariants
  import opened Isolation
  import opened Persistence
  import opened Growth
  import opened Directories
  import opened Mkdir
  import opened Files
  import opened Listing

  /** `r` is `es` with an entry `name` in its first free slot. */
  ghost predicate Inserted(es: DirBlock, name: Str, r: DirBlock) {
    var k := FreeSlot(es);
    k < 14 && Named(r[k], name) && !Used(r[14]) && forall i | 0 <= i < 14 && i != k :: r[i] == es[i]
  }

  lemma ListedInserts(v: Volume, u: Volume, p: U32, name: Str, n: U32)
    requires Inv(v) && Inv(u) && Grown(v, u, n) && Orphan(u, n) && u.inodes[n].parent == p && |name| < MAX_FILENAME
    requires Lands(v, p)
    ensures Inserted(Entries(v, p), name, Entries(SyncNodes(AddEntry(u, p, name, n).0), p))
  {
    hide DecodeDir, EncodeDir, AddEntry, SyncNodes, FreeSlot, FindSlot, StrCpy, CStr;
    var es := Entries(v, p);
    GrownKept(v, u, n);
    KeptEntries(v, u, p);
    ListedEntries(u, p, name, n);
    StrCpyRoundTrip(es[FreeSlot(es)].name, name);
  }

  /** Where the entries of a new file and of a new directory go. */
  lemma StoreFileInserts(v: Volume, p: U32, name: Str, data: seq<Byte>)
    requires Inv(v) && LiveDir(v.inodes, p) && Lands(v, p) && |name| < MAX_FILENAME && |data| <= MAX_FILE_SIZE
    ensures var (w, ok) := StoreFile(v, p, name, data); ok ==> Inserted(Entries(v, p), name, Entries(w, p))
  {
    hide DecodeDir, StoreFile, Filled, AddEntry, SyncNodes, FreeInode, Lands, Inserted, SuperSector;
    var (u, n, stored) := Filled(v, p, data);
    FilledKeeps(v, p, data);
    StoreFileIs(v, p, name, data);
    if n != NOT_FOUND && stored {
      var x := SyncNodes(AddEntry(u, p, name, n).0);
      ListedInserts(v, u, p, name, n);
      MetadataWriteExtends(x, SyncSuper(x));
    }
  }

  lemma MakeDirInserts(v: Volume, p: U32, name: Str)
    requires Inv(v) && LiveDir(v.inodes, p) && Lands(v, p) && |name| < MAX_FILENAME
    ensures var (w, ok) := MakeDir(v, p, name); ok ==> Inserted(Entries(v, p), name, Entries(w, p))
  {
    hide DecodeDir, EncodeDir, MakeDir, Prepared, AddEntry, SyncNodes, FreeInode, Lands, Inserted;
    var (u, n, taken) := Prepared(v, p);
    PreparedKeeps(v, p);
    MakeDirIs(v, p, name);
    if n != NOT_FOUND && taken {
      ListedInserts(v, u, p, name, n);
    }
  }

  lemma InsertedMissing(es: DirBlock, a: Str, r: DirBlock, b: Str)
    requires Inserted(es, a, r) && FindSlot(es, b) == MAX_DIR_ENTRIES && a != b
    ensures FindSlot(r, b) == MAX_DIR_ENTRIES
  {
    hide FindSlot, CStr;
  }

  /** The first `k` slots are in use and no others. */
  ghost predicate Holding(es: DirBlock, k: nat) { forall i | 0 <= i < MAX_DIR_ENTRIES :: Used(es[i]) <==> i < k }

  lemma InsertedHolding(es: DirBlock, name: Str, r: DirBlock, k: nat)
    requires Holding(es, k) && k < 14 && Inserted(es, name, r)
    ensures Holding(r, k + 1)
  {
    hide FreeSlot, CStr;
    assert FreeSlot(es) == k by { HoldingRoom(es, k); }
  }

  lemma HoldingRoom(es: DirBlock, k: nat)
    requires Holding(es, k) && k < 14
    ensures FreeSlot(es) == k
  {
    hide FreeSlot;
    assert !Used(es[k]);
  }

  lemma FreshHolding(t: InodeTable, n: nat, es: DirBlock)
    requires n < MAX_INODES && FreshDir(t, n, es)
    ensures Holding(es, 2)
  {
  }

  /** Making a directory in `p` leaves every other directory's entries alone. */
  lemma MakeDirElsewhere(v: Volume, p: U32, name: Str, d: U32)
    requires Inv(v) && LiveDir(v.inodes, p) && |name| < MAX_FILENAME && OpenDir(v.inodes, d) && d != p
    ensures var w := MakeDir(v, p, name).0; Entries(w, d) == Entries(v, d) && w.inodes[d] == v.inodes[d]
  {
    hide DecodeDir, EncodeDir, MakeDir, Prepared, AddEntry, SyncNodes, FreeInode;
    var (u, n, taken) := Prepared(v, p);
    PreparedKeeps(v, p);
    MakeDirIs(v, p, name);
    if n != NOT_FOUND {
      GrownKept(v, u, n);
      KeptEntries(v, u, d);
      if taken {
        var x := AddEntry(u, p, name, n).0;
        AddEntryEffect(u, p, name, n);
        KeptEntries(u, x, d);
        SyncNodesFrame(x);
        MetadataWriteExtends(x, SyncNodes(x));
      } else {
        assert NodeOk(u.inodes, n);
        ReleaseFromIs(u, n, 0);
        RolledBackEntries(u, n, d);
      }
    }
  }

  lemma RolledBackEntries(u: Volume, n: U32, d: U32)
    requires n < MAX_INODES && d < MAX_INODES && d != n && forall k | 0 <= k < DIRECT_BLOCKS :: u.inodes[n].blocks[k] < MAX_BLOCKS
    ensures var w := FreeInode(u, n); Entries(w, d) == Entries(u, d) && w.inodes[d] == u.inodes[d]
  {
    hide DecodeDir;
    ReleaseFromIs(u, n, 0);
  }

  lemma MissingSlot(v: Volume, p: U32, name: Str)
    requires Inv(v) && Searchable(v, p) && |name| < MAX_FILENAME && Step(v, p, name) == NOT_FOUND
    ensures FindSlot(Entries(v, p), name) == MAX_DIR_ENTRIES
    ensures FreeSlot(Entries(v, p)) < 14 ==> Roomy(v, p, name) && !Shadows(v, p, name)
  {
    hide DecodeDir, FindSlot, FreeSlot;
    FoundIsLive(v, p, name);
  }
}
