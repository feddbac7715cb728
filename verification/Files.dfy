/** `fs_create_file`, `fs_read_file` and `fs_delete_file`. */
module Files {
  import opened Bytes
  import opened Layout
  import opened Paths
  import opened Volumes
  import opened Invariants
  import opened Isolation
  import opened Persistence
  import opened Growth
  import opened Directories
  import opened Mkdir

  // ---------------------------------------------------------------- storing the blocks

  /** The first `i` blocks of inode `n` hold the first `i` chunks of `data`. */
  ghost predicate Stored(v: Volume, n: U32, data: seq<Byte>, i: nat)
    requires n < MAX_INODES
  {
    i <= DIRECT_BLOCKS && forall k: nat | k < i :: v.inodes[n].blocks[k] != 0 && ReadBlock(v, v.inodes[n].blocks[k]) == Chunk(data, k)
  }

  lemma TakeBlockStores(s: Volume, n: U32, data: seq<Byte>, i: nat)
    requires Inv(s) && s.bitmap[0] && Live(s.inodes, n) && i < DIRECT_BLOCKS && s.inodes[n].blocks[i] == 0
    requires Stored(s, n, data, i)
    ensures var (w, taken) := TakeBlock(s, n, i, Chunk(data, i));
      taken ==> Stored(w, n, data, i + 1)
  {
    hide Chunk, DirsOk, Acyclic, Exclusive;
    var (w, taken) := TakeBlock(s, n, i, Chunk(data, i));
    if taken {
      assert NodeOk(s.inodes, n);
      forall k: nat | k < i + 1
        ensures w.inodes[n].blocks[k] != 0 && ReadBlock(w, w.inodes[n].blocks[k]) == Chunk(data, k)
      {
        if k < i {
          assert Holds(s.inodes, n, k, s.inodes[n].blocks[k]);
        }
      }
    }
  }

  /** Where a file stands when its first `i` blocks have been dealt with. */
  ghost predicate Growing(v: Volume, s: Volume, n: U32, i: nat) {
    && Grown(v, s, n) && Inv(s) && Orphan(s, n) && s.inodes[n].kind == FILE
    && Steady(v, s)
    && forall k | i <= k < DIRECT_BLOCKS :: s.inodes[n].blocks[k] == 0
  }

  lemma GrowingOk(v: Volume, u: Volume, n: U32)
    requires Growing(v, u, n, DIRECT_BLOCKS)
    ensures NodeOk(u.inodes, n)
  {
  }

  lemma {:induction false} StoreBlocksKeeps(v: Volume, s: Volume, n: U32, data: seq<Byte>, i: nat)
    requires Growing(v, s, n, i)
    ensures var (w, stored) := StoreBlocks(s, n, data, i);
      && Growing(v, w, n, DIRECT_BLOCKS)
      && w.inodes[n].(blocks := NoBlocks()) == s.inodes[n].(blocks := NoBlocks())
      && (stored && s.bitmap[0] && i <= BlocksNeeded(|data|) && Stored(s, n, data, i) ==> Stored(w, n, data, BlocksNeeded(|data|)))
    decreases BlocksNeeded(|data|) - i
  {
    hide Chunk, Stored, Orphan, TakeBlock, Inv;
    if i < BlocksNeeded(|data|) {
      var (w, taken) := TakeBlock(s, n, i, Chunk(data, i));
      GrowingTake(v, s, n, i, Chunk(data, i));
      if taken {
        if s.bitmap[0] && Stored(s, n, data, i) {
          TakeBlockStores(s, n, data, i);
        }
        StoreBlocksKeeps(v, w, n, data, i + 1);
      }
    }
  }

  lemma GrowingTake(v: Volume, s: Volume, n: U32, i: nat, contents: Sector)
    requires Growing(v, s, n, i) && i < DIRECT_BLOCKS
    ensures var (w, taken) := TakeBlock(s, n, i, contents);
      && Growing(v, w, n, if taken then i + 1 else i)
      && w.inodes[n].(blocks := NoBlocks()) == s.inodes[n].(blocks := NoBlocks())
      && (s.bitmap[0] ==> w.bitmap[0]) && (!taken ==> w == s)
  {
    TakeBlockKeeps(s, n, i, contents);
    TakeBlockGrows(v, s, n, i, contents);
  }

  // ---------------------------------------------------------------- one new file

  /** The volume just before the new file is listed in its parent. */
  function Filled(v: Volume, p: U32, data: seq<Byte>): (Volume, U32, bool)
    requires |data| <= MAX_FILE_SIZE
  {
    var (v1, n) := NewInode(v, FILE, |data|, p);
    if n == NOT_FOUND then (v1, n, false) else
    var (v2, stored) := StoreBlocks(v1, n, data, 0);
    (v2, n, stored)
  }

  lemma FilledKeeps(v: Volume, p: U32, data: seq<Byte>)
    requires Inv(v) && LiveDir(v.inodes, p) && |data| <= MAX_FILE_SIZE
    ensures var (u, n, stored) := Filled(v, p, data);
      && (n == NOT_FOUND ==> u == v)
      && (n != NOT_FOUND ==> Growing(v, u, n, DIRECT_BLOCKS) && u.inodes[n].size == |data| && u.inodes[n].parent == p)
      && (stored && v.bitmap[0] ==> Stored(u, n, data, BlocksNeeded(|data|)))
  {
    hide Chunk;
    var (v1, n) := NewInode(v, FILE, |data|, p);
    NewInodeKeeps(v, FILE, |data|, p);
    NewInodeGrows(v, FILE, |data|, p);
    if n != NOT_FOUND {
      StoreBlocksKeeps(v, v1, n, data, 0);
    }
  }

  lemma StoreFileIs(v: Volume, p: U32, name: Str, data: seq<Byte>)
    requires Inv(v) && LiveDir(v.inodes, p) && |name| < MAX_FILENAME && |data| <= MAX_FILE_SIZE
    ensures var (u, n, stored) := Filled(v, p, data);
      StoreFile(v, p, name, data) ==
        if n == NOT_FOUND then (v, false)
        else if !stored then (FreeInode(u, n), false)
        else (SyncSuper(SyncNodes(AddEntry(u, p, name, n).0)), true)
  {
    hide NewInode, StoreBlocks, AddEntry, SyncNodes, SyncSuper, FreeInode;
    FilledKeeps(v, p, data);
    var (v1, n) := NewInode(v, FILE, |data|, p);
    if n != NOT_FOUND {
      var (u, stored) := StoreBlocks(v1, n, data, 0);
      AddEntryKeeps(u, p, name, n);
    }
  }

  lemma StoreFileKeeps(v: Volume, p: U32, name: Str, data: seq<Byte>)
    requires Inv(v) && LiveDir(v.inodes, p) && |name| < MAX_FILENAME && |data| <= MAX_FILE_SIZE
    ensures var (w, ok) := StoreFile(v, p, name, data);
      && Upkept(v, w) && (!Shadows(v, p, name) ==> Extends(v, w, {}))
      && (ok && SuperStored(v) ==> Synced(w) && LoadSuper(w.disk) == w.sb)
  {
    hide Filled, SyncNodes, SyncSuper, StoreFile, FreeInode, AddEntry, LoadSuper, BitmapSector, DecodeDir, EncodeDir;
    var (u, n, stored) := Filled(v, p, data);
    FilledKeeps(v, p, data);
    StoreFileIs(v, p, name, data);
    AllKeptExtends(v, v);
    if n == NOT_FOUND {
    } else if !stored {
      assert NodeOk(u.inodes, n);
      FreeInodeKeeps(u, n);
      RollbackKept(v, u, n);
      NoMetadataBlocks(v, u, n);
      SuperFrame(v, FreeInode(u, n));
    } else {
      var x := SyncNodes(AddEntry(u, p, name, n).0);
      ListedKeeps(v, u, p, name, n);
      SyncSuperKeeps(x);
      UpkeptTrans(v, x, SyncSuper(x));
      if !Shadows(v, p, name) {
        ExtendsThen(v, x, SyncSuper(x), {});
      }
    }
  }

  lemma SyncSuperKeeps(v: Volume)
    requires Inv(v)
    ensures var w := SyncSuper(v);
      && Upkept(v, w) && Extends(v, w, {}) && (Synced(v) ==> Synced(w) && LoadSuper(w.disk) == w.sb)
  {
    hide LoadSuper, BitmapSector, DecodeDir, SuperSector, StoredByte, Tidy, DriftOf;
    var w := SyncSuper(v);
    MetadataWriteKeeps(v, w);
    MetadataWriteExtends(v, w);
    SuperRoundTrip(w.disk, w.sb);
    if BlankStored(v.disk, v.inodes) {
      BlankStoredFrame(v.disk, w.disk, v.inodes, v.inodes);
    }
    if Synced(v) {
      SyncSuperSyncs(v);
    }
  }

  // ---------------------------------------------------------------- reading back

  /** How many bytes of a `size`-byte file come back through a buffer of `max` bytes. */
  function Delivered(size: nat, max: nat): nat {
    var n := if size > max then max else size;
    if n < DIRECT_BLOCKS * BLOCK_SIZE then n else DIRECT_BLOCKS * BLOCK_SIZE
  }

  lemma StoredContents(v: Volume, n: U32, data: seq<Byte>, len: nat)
    requires n < MAX_INODES && len <= |data| && Stored(v, n, data, BlocksNeeded(|data|))
    ensures Contents(v, n, len) == data[..Delivered(|data|, len)]
  {
    forall k: nat | k < Delivered(|data|, len)
      ensures FileByte(v, n, k) == data[k]
    {
      var i, q := k / BLOCK_SIZE, k % BLOCK_SIZE;
      assert ReadBlock(v, v.inodes[n].blocks[i]) == Chunk(data, i);
      assert Chunk(data, i)[q] == DataByte(data, i, q);
    }
  }

  /** Reading inode `x` gives the size and the bytes of `data`. */
  ghost predicate HoldsFile(v: Volume, x: U32, data: seq<Byte>) {
    && x < MAX_INODES && v.inodes[x].kind == FILE && v.inodes[x].size == |data|
    && forall len: nat | len <= |data| :: Contents(v, x, len) == data[..Delivered(|data|, len)]
  }

  lemma StoreFileResult(v: Volume, p: U32, name: Str, data: seq<Byte>)
    requires Inv(v) && v.bitmap[0] && LiveDir(v.inodes, p) && |name| < MAX_FILENAME && |data| <= MAX_FILE_SIZE
    ensures var (w, ok) := StoreFile(v, p, name, data);
      ok ==> var x := Step(w, p, name);
        if Roomy(v, p, name) then HoldsFile(w, x, data) && v.inodes[x].kind == FREE else x == Step(v, p, name)
  {
    hide Filled, SyncNodes, SyncSuper, StoreFile, FreeInode, AddEntry, DecodeDir, EncodeDir, Stored, Contents, Roomy;
    var (u, n, stored) := Filled(v, p, data);
    FilledKeeps(v, p, data);
    StoreFileIs(v, p, name, data);
    if n != NOT_FOUND && stored {
      GrownKept(v, u, n);
      SameRoom(v, u, p, name);
      KeptEntries(v, u, p);
      FilledHoldsFile(u, n, data);
      ListedFile(u, p, name, n, data);
    }
  }

  lemma FilledHoldsFile(u: Volume, n: U32, data: seq<Byte>)
    requires n < MAX_INODES && u.inodes[n].kind == FILE && u.inodes[n].size == |data|
    requires Stored(u, n, data, BlocksNeeded(|data|))
    ensures HoldsFile(u, n, data)
  {
    forall len: nat | len <= |data|
      ensures Contents(u, n, len) == data[..Delivered(|data|, len)]
    {
      StoredContents(u, n, data, len);
    }
  }

  lemma ListedFile(u: Volume, p: U32, name: Str, n: U32, data: seq<Byte>)
    requires Inv(u) && LiveDir(u.inodes, p) && Orphan(u, n) && u.inodes[n].parent == p && |name| < MAX_FILENAME
    requires HoldsFile(u, n, data)
    ensures var w := SyncSuper(SyncNodes(AddEntry(u, p, name, n).0));
      && Step(w, p, name) == (if Roomy(u, p, name) then n else Step(u, p, name))
      && HoldsFile(w, n, data)
  {
    hide DecodeDir, EncodeDir, SyncNodes, AddEntry, Roomy, Contents, SuperSector;
    var x := AddEntry(u, p, name, n).0;
    var w := SyncSuper(SyncNodes(x));
    AddEntryEffect(u, p, name, n);
    SyncNodesFrame(x);
    MetadataWriteExtends(x, w);
    assert Kept(u, x, n) && Kept(x, w, n);
    forall len: nat | len <= |data|
      ensures Contents(w, n, len) == Contents(u, n, len)
    {
      KeptContents(u, x, n, len);
      KeptContents(x, w, n, len);
    }
  }

  /** Reading fails exactly on paths that name no file, directories among them; of a file it gives the recorded size and as
      many bytes as the file, the buffer and twelve blocks have. */
  lemma ReadResult(v: Volume, cs: Path, max: U32)
    ensures var (size, bytes) := ReadFile(v, cs, max); var n := Resolve(v, cs);
      if n < MAX_INODES && v.inodes[n].kind == 1 then
        size == v.inodes[n].size && |bytes| <= max && |bytes| <= size && |bytes| <= 6144 && (|bytes| == max || |bytes| == size || |bytes| == 6144)
      else size == -1 && bytes == []
  {
    hide Walk, FileByte;
  }

  /** Block 0 and numbers past the last block read as zeros, and writing them does nothing. */
  lemma NoSuchBlock(v: Volume, b: U32, s: Sector)
    requires b == 0 || b >= 512
    ensures (forall k | 0 <= k < 512 :: ReadBlock(v, b)[k] == 0) && WriteBlock(v, b, s) == v
  {
  }

  // ---------------------------------------------------------------- deleting

  /** What the resolver tells about a file: its directory lists it, and nobody else does. */
  lemma FileIsListed(v: Volume, cs: Path)
    requires Inv(v) && ResolvesToFile(v, cs)
    ensures var p, f := Resolve(v, Parent(cs)), Resolve(v, cs);
      && cs != [] && p < MAX_INODES && OpenDir(v.inodes, p) && Live(v.inodes, f) && v.inodes[f].parent == p
      && Step(v, p, Name(cs)) == f && SlotOf(Entries(v, p), f) < MAX_DIR_ENTRIES
  {
    hide DecodeDir, FindSlot, SlotOf, Inv, Lookup;
    RootIsDir(v);
    WalkSplit(v, v.sb.rootInode, cs);
    ResolveLands(v, Parent(cs));
    ResolveLands(v, cs);
    RootIsDir(v);
    EntryOfFile(v, Resolve(v, Parent(cs)), Name(cs), Resolve(v, cs));
  }

  lemma RootIsDir(v: Volume)
    requires Inv(v)
    ensures Resolve(v, []) == 0 && v.inodes[0].kind == DIR
  {
  }

  /** A file is found in the directory that its inode names. */
  lemma EntryOfFile(v: Volume, p: U32, name: Str, f: U32)
    requires Inv(v) && Live(v.inodes, p) && Live(v.inodes, f) && v.inodes[f].kind == FILE && Step(v, p, name) == f
    ensures OpenDir(v.inodes, p) && v.inodes[f].parent == p && SlotOf(Entries(v, p), f) < MAX_DIR_ENTRIES
  {
    hide DecodeDir, FindSlot, SlotOf, CStr;
    var es := Entries(v, p);
    var k := FindSlot(es, name);
    assert NodeOk(v.inodes, p);
    assert DirOk(v.inodes, p, es);
    assert k >= 2;
    assert EntryOk(v.inodes, p, es[k]);
    ListedHasSlot(es, f, k);
  }

  lemma ListedHasSlot(es: DirBlock, f: U32, k: nat)
    requires k < MAX_DIR_ENTRIES && Used(es[k]) && es[k].inode == f
    ensures SlotOf(es, f) <= k
  {
    hide SlotOf;
  }

  lemma RemoveEntryEffect(v: Volume, p: U32, f: U32)
    requires Inv(v) && OpenDir(v.inodes, p) && SlotOf(Entries(v, p), f) < MAX_DIR_ENTRIES
    ensures var w := RemoveEntry(v, p, f);
      && w == v.(disk := w.disk)
      && (forall s | 0 <= s < DATA_START_SECTOR :: w.disk[s] == v.disk[s])
      && (forall i | Live(v.inodes, i) && i != p :: Kept(v, w, i))
      && (forall nm :: Step(v, p, nm) != f ==> Step(w, p, nm) == Step(v, p, nm))
      && ReadsBackAs(Entries(v, p)[SlotOf(Entries(v, p), f) := Entry(ZeroName(), f, 0)], Entries(w, p))
  {
    hide DecodeDir, EncodeDir, SlotOf;
    var w := RemoveEntry(v, p, f);
    var es, b := Entries(v, p), FirstBlock(v, p);
    var k := SlotOf(es, f);
    var es' := es[k := Entry(ZeroName(), es[k].inode, 0)];
    assert NodeOk(v.inodes, p);
    LastEntryUnused(ReadBlock(v, b));
    DirRoundTrip(es');
    assert ReadBlock(w, b) == EncodeDir(es');
    forall nm | Step(v, p, nm) != f
      ensures Step(w, p, nm) == Step(v, p, nm)
    {
      if |nm| < MAX_FILENAME {
        LookupRemoved(es, f, Entries(w, p), nm);
      }
    }
    OnlyBlockChanged(v, w, p);
  }

  /** Freeing the inode and removing its entry touch different things. */
  lemma FreeThenRemove(v: Volume, p: U32, f: U32)
    requires Inv(v) && Live(v.inodes, f) && Live(v.inodes, p) && p != f
    ensures RemoveEntry(FreeInode(v, f), p, f) == FreeInode(RemoveEntry(v, p, f), f)
    ensures var w := RemoveEntry(FreeInode(v, f), p, f);
      && w.disk == RemoveEntry(v, p, f).disk && SameSuper(w.sb, v.sb) && w.bitmap[0] == v.bitmap[0]
      && (forall i | 0 <= i < MAX_INODES && i != f :: w.inodes[i] == v.inodes[i])
  {
    hide DecodeDir, EncodeDir, SlotOf, ReleaseFrom;
    assert NodeOk(v.inodes, f);
    ReleaseFromIs(v, f, 0);
    var x := RemoveEntry(v, p, f);
    FreeInodeDisk(v, x, f);
  }

  lemma FreeInodeDisk(v: Volume, x: Volume, f: U32)
    requires f < MAX_INODES && x == v.(disk := x.disk)
    ensures FreeInode(x, f) == FreeInode(v, f).(disk := x.disk)
  {
    ReleaseFromDisk(v, x, f, 0);
  }

  lemma {:induction false} ReleaseFromDisk(v: Volume, x: Volume, f: U32, j: nat)
    requires f < MAX_INODES && j <= DIRECT_BLOCKS && x == v.(disk := x.disk)
    ensures ReleaseFrom(x, f, j) == ReleaseFrom(v, f, j).(disk := x.disk)
    decreases DIRECT_BLOCKS - j
  {
    if j < DIRECT_BLOCKS {
      ReleaseFromDisk(ReleaseOne(v, f, j), ReleaseOne(x, f, j), f, j + 1);
    }
  }

  /** Deleting keeps the invariant; every path but those to the file, and every other file, stay as they were. */
  lemma DeleteFileKeeps(v: Volume, cs: Path)
    requires Inv(v)
    ensures var (w, ok) := DeleteFile(v, cs);
      && ok == ResolvesToFile(v, cs)
      && Upkept(v, w) && Extends(v, w, if ok then {Resolve(v, cs) as int} else {})
      && (!ok ==> w == v) && (ok && SuperStored(v) ==> Synced(w))
      && (ok ==> !Live(w.inodes, Resolve(v, cs)))
  {
    hide DecodeDir, EncodeDir, RemoveEntry, FreeInode, SyncNodes, LoadSuper, BitmapSector, Walk, SlotOf;
    AllKeptExtends(v, v);
    if ResolvesToFile(v, cs) {
      FileIsListed(v, cs);
      DiscardKeeps(v, Resolve(v, Parent(cs)), Resolve(v, cs));
    }
  }

  lemma DiscardKeeps(v: Volume, p: U32, f: U32)
    requires Inv(v) && OpenDir(v.inodes, p) && Live(v.inodes, f) && v.inodes[f].kind == FILE && v.inodes[f].parent == p
    requires SlotOf(Entries(v, p), f) < MAX_DIR_ENTRIES
    ensures var w := Discard(v, p, f);
      && Upkept(v, w) && Extends(v, w, {f as int}) && (SuperStored(v) ==> Synced(w)) && !Live(w.inodes, f)
  {
    hide DecodeDir, EncodeDir, RemoveEntry, FreeInode, SyncNodes, LoadSuper, BitmapSector, SlotOf, Tidy, DriftOf, BlankStored, TableStored, Inv, Extends;
    var x := RemoveEntry(v, p, f);
    var y := FreeInode(x, f);
    var w := Discard(v, p, f);
    DiscardDisk(v, p, f);
    RemoveEntryKeeps(v, p, f);
    FreeInodeKeeps(x, f);
    MetadataWriteKeeps(y, w);
    TidySyncs(y);
    if SuperStored(v) {
      SyncNodesSyncs(y);
    }
    DiscardExtends(v, x, w, p, f) by { RemoveEntryEffect(v, p, f); }
    Freed(x, f);
  }

  lemma DiscardDisk(v: Volume, p: U32, f: U32)
    requires Inv(v) && OpenDir(v.inodes, p) && Live(v.inodes, f) && v.inodes[f].kind == FILE
    requires SlotOf(Entries(v, p), f) < MAX_DIR_ENTRIES
    ensures var x := RemoveEntry(v, p, f); var y := FreeInode(x, f); var w := Discard(v, p, f);
      && w == SyncNodes(y) && w == y.(disk := w.disk) && x == v.(disk := x.disk)
      && (forall s | DATA_START_SECTOR <= s < DISK_SECTORS :: w.disk[s] == y.disk[s] == x.disk[s])
      && (forall i | 0 <= i < MAX_INODES && i != f :: w.inodes[i] == v.inodes[i])
      && w.bitmap[0] == v.bitmap[0] && w.sb.rootInode == v.sb.rootInode
      && (SuperStored(v) ==> SuperStored(y) && SuperStored(w))
  {
    hide DecodeDir, EncodeDir, RemoveEntry, FreeInode, SyncNodes, LoadSuper, BitmapSector, SlotOf;
    var x := RemoveEntry(v, p, f);
    var y := FreeInode(x, f);
    RemoveEntryEffect(v, p, f);
    FreeThenRemove(v, p, f);
    SyncNodesFrame(y);
    SuperFrame(v, y);
    SuperSectorFrame(y, SyncNodes(y));
  }

  lemma Freed(x: Volume, f: U32)
    requires f < MAX_INODES
    ensures FreeInode(x, f).inodes[f].kind == FREE
  {
  }

  lemma DiscardExtends(v: Volume, x: Volume, w: Volume, p: U32, f: U32)
    requires Live(v.inodes, p) && Live(v.inodes, f) && v.inodes[f].kind == FILE && f != p
    requires forall i | Live(v.inodes, i) && i != p :: Kept(v, x, i)
    requires forall nm :: Step(v, p, nm) != f ==> Step(x, p, nm) == Step(v, p, nm)
    requires x == v.(disk := x.disk) && w.sb.rootInode == v.sb.rootInode && LiveDir(v.inodes, p)
    requires forall i | 0 <= i < MAX_INODES && i != f :: w.inodes[i] == v.inodes[i]
    requires forall s | DATA_START_SECTOR <= s < DISK_SECTORS :: w.disk[s] == x.disk[s]
    ensures Extends(v, w, {f as int})
  {
    hide DecodeDir;
    var gone: set<int> := {f};
    forall i: U32, nm | LiveDir(v.inodes, i)
      ensures StepKept(v, w, i, nm, gone)
    {
      KeptEntries(x, w, i);
      if i != p {
        KeptEntries(v, x, i);
      }
    }
  }
}
