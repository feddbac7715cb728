/** Cutting `fs_create_dir` and `fs_create_file` after any prefix of their sector writes: exactly which cuts are safe. */
module Torn {
  import opened Bytes
  import opened Layout
  import opened Paths
  import opened Volumes
  import opened Invariants
  import opened Isolation
  import opened Persistence
  import opened Growth
  import opened Directories
  import opened Mkdir
  import opened Files
  import opened Names
  import opened Uniqueness
  import opened Creation
  import opened Writes
  import opened Crash
  import opened Listing

  /** A prefix of two lists of writes, one after the other. */
  lemma ConcatCut(d: Disk, a: seq<SectorWrite>, b: seq<SectorWrite>, k: nat)
    requires k <= |a + b|
    ensures Apply(d, (a + b)[..k]) == if k <= |a| then Apply(d, a[..k]) else Apply(Apply(d, a), b[..k - |a|])
  {
    hide Apply;
    if k <= |a| {
      assert (a + b)[..k] == a[..k];
    } else {
      assert (a + b)[..k] == a + b[..k - |a|];
      ApplyConcat(d, a, b[..k - |a|]);
    }
  }

  // ---------------------------------------------------------------- one new directory

  /** The writes of one `MakeDir`: the new directory's block, then its listing; none when it fails. */
  function MakeDirWrites(v: Volume, p: U32, name: Str): seq<SectorWrite>
    requires |name| < MAX_FILENAME
  {
    var (u, n, taken) := Prepared(v, p);
    if KindOf(v, p) != DIR || n == NOT_FOUND || !taken then []
    else BlockWrites(FirstClear(v.bitmap, 0), EncodeDir(NewDir(n, p))) + ListedWrites(u, p, name, n)
  }

  /** The listing, if there is an unused entry. There always is, but it takes the invariant to see that. */
  function ListedWrites(u: Volume, p: U32, name: Str, n: U32): seq<SectorWrite>
    requires |name| < MAX_FILENAME
  {
    if AddEntry(u, p, name, n).1 then ListWrites(u, p, name, n) else []
  }

  /** Whether the first `k` of them leave a sound disk. */
  ghost predicate MakeDirCutSafe(v: Volume, p: U32, name: Str, k: nat) {
    var (u, n, taken) := Prepared(v, p);
    KindOf(v, p) == DIR && n < MAX_INODES && taken && k > 1 ==> ListCutSafe(v, p, n, u.inodes[n], k - 1)
  }

  lemma AlwaysListed(v: Volume, u: Volume, p: U32, name: Str, n: U32)
    requires Inv(u) && Grown(v, u, n) && LiveDir(v.inodes, p) && Orphan(u, n) && u.inodes[n].parent == p && |name| < MAX_FILENAME
    ensures AddEntry(u, p, name, n).1
  {
    hide AddEntry, Inv;
    AddEntryKeeps(u, p, name, n);
  }

  /** The first write puts the new directory into a block that is clear and nobody's. */
  lemma PreparedWrites(v: Volume, p: U32)
    requires Inv(v) && v.bitmap[0] && LiveDir(v.inodes, p)
    ensures var (u, n, taken) := Prepared(v, p);
      var b := FirstClear(v.bitmap, 0);
      n != NOT_FOUND && taken ==>
        && 0 < b < MAX_BLOCKS && n < MAX_INODES
        && u.disk == v.disk[DATA_START_SECTOR + b := EncodeDir(NewDir(n, p))] && OffMarked(v.bitmap, v.disk, u.disk)
  {
    hide EncodeDir, DecodeDir;
  }

  lemma MakeDirWritesComplete(v: Volume, p: U32, name: Str)
    requires Inv(v) && Synced(v) && v.bitmap[0] && p < MAX_INODES && |name| < MAX_FILENAME
    ensures Apply(v.disk, MakeDirWrites(v, p, name)) == MakeDir(v, p, name).0.disk
  {
    hide EncodeDir, DecodeDir, Apply, ListWrites, MakeDir, Prepared, SyncNodes, AddEntry, FreeInode, Synced, Inv, Grown, OffMarked;
    ApplyNone(v.disk);
    if !LiveDir(v.inodes, p) {
      NotADir(v, p, name);
    } else {
      var (u, n, taken) := Prepared(v, p);
      PreparedKeeps(v, p);
      MakeDirIs(v, p, name);
      PreparedWrites(v, p);
      if n != NOT_FOUND && taken {
        AlwaysListed(v, u, p, name, n);
        var w := SectorWrite(DATA_START_SECTOR + FirstClear(v.bitmap, 0), EncodeDir(NewDir(n, p)));
        ApplyConcat(v.disk, [w], ListWrites(u, p, name, n));
        ApplyOne(v.disk, w);
        ListWritesComplete(v, u, p, name, n);
      } else if n != NOT_FOUND {
        UntakenDisk(v, p);
      }
    }
  }

  lemma UntakenDisk(v: Volume, p: U32)
    requires Inv(v) && LiveDir(v.inodes, p)
    ensures var (u, n, taken) := Prepared(v, p); n != NOT_FOUND && !taken ==> FreeInode(u, n).disk == v.disk
  {
    hide EncodeDir, DecodeDir, ReleaseFrom;
    var (u, n, taken) := Prepared(v, p);
    if n != NOT_FOUND && !taken {
      ReleaseFromIs(u, n, 0);
    }
  }

  lemma ListWritesComplete(v: Volume, u: Volume, p: U32, name: Str, n: U32)
    requires Inv(v) && Synced(v) && Inv(u) && Grown(v, u, n) && Orphan(u, n) && Steady(v, u)
    requires LiveDir(v.inodes, p) && u.inodes[n].parent == p && |name| < MAX_FILENAME
    ensures Apply(u.disk, ListWrites(u, p, name, n)) == SyncNodes(AddEntry(u, p, name, n).0).disk
  {
    hide EncodeDir, DecodeDir, Apply, ListWrites, SyncNodes, AddEntry, NodeWrites, Inv, Grown, Synced, Roomy, Extends;
    var ws, nodes := ListWrites(u, p, name, n), NodeWrites(u.inodes, u.bitmap);
    ListStart(v, u, p, name, n, |ws|);
    ListedWhole(v, u, p, name, n);
    assert ws[..|ws|] == ws && nodes[..|nodes|] == nodes;
  }

  /** mkdir of one directory, cut anywhere: exactly which cuts are sound; and no cut touches anything else. */
  lemma MakeDirCut(v: Volume, p: U32, name: Str, k: nat)
    requires Inv(v) && Synced(v) && Clean(v) && v.bitmap[0] && p < MAX_INODES && |name| < MAX_FILENAME && k <= |MakeDirWrites(v, p, name)|
    ensures var r := Reload(Apply(v.disk, MakeDirWrites(v, p, name)[..k]));
      (Inv(r) <==> MakeDirCutSafe(v, p, name, k)) && (!Shadows(v, p, name) ==> Extends(v, r, {}))
  {
    hide EncodeDir, DecodeDir, Apply, ListWrites, Prepared, Synced, Clean, Inv, Grown, OffMarked, Reload, Extends, Roomy, ListCutSafe, Orphan,
      Steady;
    var ws := MakeDirWrites(v, p, name);
    var (u, n, taken) := Prepared(v, p);
    if ws == [] {
      assert ws[..k] == [];
      ApplyNone(v.disk);
      NothingCut(v);
      NoWritesNoMake(v, p, name);
    } else {
      PreparedKeeps(v, p);
      PreparedWrites(v, p);
      AlwaysListed(v, u, p, name, n);
      var w := SectorWrite(DATA_START_SECTOR + FirstClear(v.bitmap, 0), EncodeDir(NewDir(n, p)));
      ApplyOne(v.disk, w);
      ConcatCut(v.disk, [w], ListWrites(u, p, name, n), k);
      if k == 0 {
        assert [w][..0] == [];
        ApplyNone(v.disk);
        NothingCut(v);
      } else if k == 1 {
        assert [w][..1] == [w];
        DataCut(v, u.disk);
      } else {
        ListCut(v, u, p, name, n, k - 1);
      }
    }
  }

  lemma NoWritesNoMake(v: Volume, p: U32, name: Str)
    requires Inv(v) && v.bitmap[0] && p < MAX_INODES && |name| < MAX_FILENAME
    ensures var (u, n, taken) := Prepared(v, p);
      MakeDirWrites(v, p, name) == [] <==> KindOf(v, p) != DIR || n == NOT_FOUND || !taken
  {
    hide EncodeDir, Prepared, ListedWrites, Inv, OffMarked;
    if KindOf(v, p) == DIR {
      PreparedWrites(v, p);
    }
  }

  lemma NothingCut(v: Volume)
    requires Inv(v) && Synced(v)
    ensures Inv(Reload(v.disk)) && Extends(v, Reload(v.disk), {})
  {
    hide Inv, Synced, Reload, Extends;
    RebootKeeps(v);
    RebootExtends(v);
  }

  /** In numbers, where the entry reaches the disk: of the 27 writes of a mkdir it may be cut before the second, the
      directory's, and after the last; in between only at the corner. */
  lemma MakeDirSafePrefixes(v: Volume, p: U32, name: Str, k: nat)
    requires Inv(v) && Synced(v) && Clean(v) && v.bitmap[0] && Lands(v, p) && |name| < MAX_FILENAME && k <= |MakeDirWrites(v, p, name)|
    requires MakeDirWrites(v, p, name) != []
    ensures var n := Prepared(v, p).1;
      && |MakeDirWrites(v, p, name)| == 27 && n < MAX_INODES
      && (MakeDirCutSafe(v, p, name, k) <==>
            || k <= 1 || k == 27
            || ((n == 17 || n == 34 || n == 145 || n == 162) && k == INODE_SIZE * n / BLOCK_SIZE + 3 && LoadInode(v.disk, n).parent == p))
  {
    hide EncodeDir, DecodeDir, ListWrites, Prepared, Inv, Grown, OffMarked, SafeNode, CutNode, Orphan, Steady, LoadInode, TableStored,
      BlankStored, Tidy, BitmapSector, LoadSuper;
    var (u, n, taken) := Prepared(v, p);
    NoWritesNoMake(v, p, name);
    PreparedKeeps(v, p);
    PreparedWrites(v, p);
    AlwaysListed(v, u, p, name, n);
    ListStart(v, u, p, name, n, 0);
    NodeWritesLength(u.inodes, u.bitmap);
    PreparedNode(v, p);
    if k >= 2 {
      StoredFree(v.disk, v.inodes, n);
      HolderCut(v, p, n, LoadInode(v.disk, n), u.inodes[n], k - 2);
    }
  }

  lemma PreparedNode(v: Volume, p: U32)
    requires Inv(v) && v.bitmap[0] && LiveDir(v.inodes, p)
    ensures var (u, n, taken) := Prepared(v, p);
      n != NOT_FOUND && taken ==> n < MAX_INODES && v.inodes[n].kind == FREE && u.inodes[n].kind == DIR && u.inodes[n].blocks[0] != 0
  {
    hide EncodeDir, DecodeDir;
  }

  // ---------------------------------------------------------------- one new file

  /** The data blocks written for chunks `i` and following, until the disk is full. */
  function DataWrites(v: Volume, n: U32, data: seq<Byte>, i: nat): seq<SectorWrite>
    requires n < MAX_INODES
    decreases BlocksNeeded(|data|) - i
  {
    if i >= BlocksNeeded(|data|) then [] else
    var (w, taken) := TakeBlock(v, n, i, Chunk(data, i));
    if !taken then [] else BlockWrites(FirstClear(v.bitmap, 0), Chunk(data, i)) + DataWrites(w, n, data, i + 1)
  }

  /** The writes of one `StoreFile`: its blocks; then, unless the disk was full, its listing and the superblock. */
  function StoreFileWrites(v: Volume, p: U32, name: Str, data: seq<Byte>): seq<SectorWrite>
    requires |name| < MAX_FILENAME && |data| <= MAX_FILE_SIZE
  {
    var (v1, n) := NewInode(v, FILE, |data|, p);
    if n == NOT_FOUND then [] else
    var (u, stored) := StoreBlocks(v1, n, data, 0);
    DataWrites(v1, n, data, 0)
      + if stored && AddEntry(u, p, name, n).1 then ListWrites(u, p, name, n) + [SectorWrite(SUPERBLOCK_SECTOR, SuperSector(u.sb))] else []
  }

  ghost predicate StoreFileCutSafe(v: Volume, p: U32, name: Str, data: seq<Byte>, k: nat)
    requires |data| <= MAX_FILE_SIZE
  {
    var (v1, n) := NewInode(v, FILE, |data|, p);
    n < MAX_INODES ==>
      var (u, stored) := StoreBlocks(v1, n, data, 0);
      var m := |DataWrites(v1, n, data, 0)|;
      stored && k > m ==> ListCutSafe(v, p, n, u.inodes[n], k - m)
  }

  lemma TakenDisk(v: Volume, n: U32, i: nat, contents: Sector)
    requires n < MAX_INODES && i < DIRECT_BLOCKS && v.bitmap[0]
    ensures var (w, taken) := TakeBlock(v, n, i, contents);
      var b := FirstClear(v.bitmap, 0);
      if taken then
        && 0 < b < MAX_BLOCKS && !v.bitmap[b] && w.bitmap == v.bitmap[b := true]
        && w.disk == v.disk[DATA_START_SECTOR + b := contents]
      else w == v
  {
  }

  /** After any number of data writes only blocks have changed that were clear. */
  lemma {:induction false} DataWritesOff(v: Volume, n: U32, data: seq<Byte>, i: nat, k: nat)
    requires n < MAX_INODES && v.bitmap[0] && k <= |DataWrites(v, n, data, i)|
    ensures var ws := DataWrites(v, n, data, i);
      && OffMarked(v.bitmap, v.disk, Apply(v.disk, ws[..k]))
      && Apply(v.disk, ws) == StoreBlocks(v, n, data, i).0.disk
      && (StoreBlocks(v, n, data, i).1 && i <= BlocksNeeded(|data|) ==> |ws| == BlocksNeeded(|data|) - i)
    decreases BlocksNeeded(|data|) - i
  {
    hide Apply, Chunk, TakeBlock, FirstClear, OffMarked, BlocksNeeded;
    var ws := DataWrites(v, n, data, i);
    NothingOff(v.bitmap, v.disk);
    if i < BlocksNeeded(|data|) {
      NeedsBlock(|data|, i);
      TakenDisk(v, n, i, Chunk(data, i));
    }
    if i < BlocksNeeded(|data|) && TakeBlock(v, n, i, Chunk(data, i)).1 {
      var w := TakeBlock(v, n, i, Chunk(data, i)).0;
      var b := FirstClear(v.bitmap, 0);
      var first, rest := SectorWrite(DATA_START_SECTOR + b, Chunk(data, i)), DataWrites(w, n, data, i + 1);
      assert ws == [first] + rest;
      ApplyOne(v.disk, first);
      ApplyConcat(v.disk, [first], rest);
      DataWritesOff(w, n, data, i + 1, if k > 0 then k - 1 else 0);
      if k > 0 {
        AfterFirst(v.disk, first, rest, k);
        OffThen(v.bitmap, b, v.disk, Chunk(data, i), Apply(w.disk, rest[..k - 1]));
      } else {
        assert ws[..0] == [];
        ApplyNone(v.disk);
      }
    } else {
      assert ws[..k] == [];
      ApplyNone(v.disk);
    }
  }

  lemma NeedsBlock(size: nat, i: nat)
    requires i < BlocksNeeded(size)
    ensures i < DIRECT_BLOCKS
  {
  }

  lemma NothingOff(bm: Bitmap, d: Disk)
    ensures OffMarked(bm, d, d)
  {
  }

  /** A write to a clear block, and then others to blocks that are clear once that one is marked. */
  lemma OffThen(bm: Bitmap, b: U32, d: Disk, contents: Sector, e: Disk)
    requires 0 < b < MAX_BLOCKS && !bm[b] && OffMarked(bm[b := true], d[DATA_START_SECTOR + b := contents], e)
    ensures OffMarked(bm, d, e)
  {
  }

  lemma StoreFileWritesComplete(v: Volume, p: U32, name: Str, data: seq<Byte>)
    requires Inv(v) && Synced(v) && v.bitmap[0] && LiveDir(v.inodes, p) && |name| < MAX_FILENAME && |data| <= MAX_FILE_SIZE
    ensures Apply(v.disk, StoreFileWrites(v, p, name, data)) == StoreFile(v, p, name, data).0.disk
  {
    hide DecodeDir, Apply, ListWrites, StoreFile, SyncNodes, AddEntry, FreeInode, Synced, Inv, StoreBlocks, DataWrites, SuperSector, OffMarked;
    ApplyNone(v.disk);
    var (v1, n) := NewInode(v, FILE, |data|, p);
    StoreFileIs(v, p, name, data);
    FilledKeeps(v, p, data);
    if n != NOT_FOUND {
      var ws := DataWrites(v1, n, data, 0);
      var (u, stored) := StoreBlocks(v1, n, data, 0);
      DataWritesOff(v1, n, data, 0, 0);
      if stored {
        AlwaysListed(v, u, p, name, n);
        var list, super := ListWrites(u, p, name, n), SectorWrite(SUPERBLOCK_SECTOR, SuperSector(u.sb));
        ApplyConcat(v.disk, ws, list + [super]);
        ApplyConcat(u.disk, list, [super]);
        ListWritesComplete(v, u, p, name, n);
        ListedDisk(v, u, p, name, n);
        ApplyOne(SyncNodes(AddEntry(u, p, name, n).0).disk, super);
      } else {
        assert ws + [] == ws;
        assert NodeOk(u.inodes, n) by { GrowingOk(v, u, n); }
        ReleaseFromIs(u, n, 0);
        FreedDisk(u, n);
      }
    }
  }

  lemma FreedDisk(u: Volume, n: U32)
    requires n < MAX_INODES && forall k | 0 <= k < DIRECT_BLOCKS :: u.inodes[n].blocks[k] < MAX_BLOCKS
    ensures FreeInode(u, n).disk == u.disk
  {
    ReleaseFromIs(u, n, 0);
  }

  /** Storing a file, cut anywhere: exactly which cuts are sound; and no cut touches anything else. */
  lemma StoreFileCut(v: Volume, p: U32, name: Str, data: seq<Byte>, k: nat)
    requires Inv(v) && Synced(v) && Clean(v) && v.bitmap[0] && LiveDir(v.inodes, p) && |name| < MAX_FILENAME && |data| <= MAX_FILE_SIZE
    requires k <= |StoreFileWrites(v, p, name, data)|
    ensures var r := Reload(Apply(v.disk, StoreFileWrites(v, p, name, data)[..k]));
      (Inv(r) <==> StoreFileCutSafe(v, p, name, data, k)) && (!Shadows(v, p, name) ==> Extends(v, r, {}))
  {
    hide DecodeDir, Apply, ListWrites, Synced, Clean, Inv, StoreBlocks, DataWrites, SuperSector, OffMarked, Reload, Extends, Roomy, ListCutSafe,
      Grown, Orphan, Steady;
    var ws := StoreFileWrites(v, p, name, data);
    var (v1, n) := NewInode(v, FILE, |data|, p);
    FilledKeeps(v, p, data);
    if n == NOT_FOUND {
      assert ws[..k] == [];
      ApplyNone(v.disk);
      NothingCut(v);
    } else {
      var blocks := DataWrites(v1, n, data, 0);
      var (u, stored) := StoreBlocks(v1, n, data, 0);
      AlwaysListed(v, u, p, name, n);
      var tail := if stored then ListWrites(u, p, name, n) + [SectorWrite(SUPERBLOCK_SECTOR, SuperSector(u.sb))] else [];
      ConcatCut(v.disk, blocks, tail, k);
      if k <= |blocks| {
        DataWritesOff(v1, n, data, 0, k);
        DataCut(v, Apply(v.disk, blocks[..k]));
      } else {
        DataWritesOff(v1, n, data, 0, |blocks|);
        assert blocks[..|blocks|] == blocks;
        StoreListCut(v, u, p, name, n, k - |blocks|);
      }
    }
  }

  /** In numbers, where the entry reaches the disk: a file with `m` blocks is written with `m + 27` writes, and may be cut
      before the directory's and after the bitmap's; in between only at the corner. An empty file is there as soon as its
      record is. */
  lemma StoreFileSafePrefixes(v: Volume, p: U32, name: Str, data: seq<Byte>, k: nat)
    requires Settled(v) && Lands(v, p) && LiveDir(v.inodes, p) && |name| < MAX_FILENAME && |data| <= MAX_FILE_SIZE
    requires k <= |StoreFileWrites(v, p, name, data)| && StoreFile(v, p, name, data).1
    ensures var m, n := BlocksNeeded(|data|), FirstFree(v.inodes, 0);
      && n < MAX_INODES && |StoreFileWrites(v, p, name, data)| == m + 27
      && (StoreFileCutSafe(v, p, name, data, k) <==>
            if data == [] then
              k == 0 || (Reached(n, 0, k - 1) && (Reached(n, 56, k - 1) || LoadInode(v.disk, n).parent == p))
            else
              || k <= m || k >= m + 26
              || ((n == 17 || n == 34 || n == 145 || n == 162) && k == m + INODE_SIZE * n / BLOCK_SIZE + 2 && LoadInode(v.disk, n).parent == p))
  {
    hide DecodeDir, ListWrites, Inv, StoreBlocks, DataWrites, SuperSector, SafeNode, CutNode, Grown, Orphan, Steady, LoadInode, StoreFile, TableStored,
      BlankStored, Tidy, BitmapSector, LoadSuper,
      Reached, AddEntry, Chunk, BlocksNeeded, FreeSlot, Stored, SyncNodes, FreeInode, OffMarked;
    var (v1, n) := NewInode(v, FILE, |data|, p);
    var m := BlocksNeeded(|data|);
    StoreFileIs(v, p, name, data);
    FilledKeeps(v, p, data);
    var (u, stored) := StoreBlocks(v1, n, data, 0);
    AlwaysListed(v, u, p, name, n);
    DataWritesOff(v1, n, data, 0, 0);
    ListStart(v, u, p, name, n, 0);
    NodeWritesLength(u.inodes, u.bitmap);
    FirstChunk(u, n, data);
    if k > m {
      StoredFree(v.disk, v.inodes, n);
      if data == [] {
        NoChunks(v1, n);
        EmptyCut(v, p, n, LoadInode(v.disk, n), u.inodes[n], k - 1);
        if k > TABLE_SECTORS {
          TableEnd(n, k - 1);
        }
      } else {
        HolderCut(v, p, n, LoadInode(v.disk, n), u.inodes[n], k - m - 1);
      }
    }
  }

  /** A stored file has its first block exactly when it has a byte. */
  lemma FirstChunk(u: Volume, n: U32, data: seq<Byte>)
    requires n < MAX_INODES
    ensures data != [] ==> BlocksNeeded(|data|) > 0
    ensures data != [] && Stored(u, n, data, BlocksNeeded(|data|)) ==> u.inodes[n].blocks[0] != 0
    ensures data == [] ==> BlocksNeeded(|data|) == 0
  {
  }

  lemma NoChunks(u: Volume, n: U32)
    requires n < MAX_INODES
    ensures StoreBlocks(u, n, [], 0) == (u, true)
  {
  }

  lemma TableEnd(n: nat, j: nat)
    requires n < MAX_INODES && j >= TABLE_SECTORS
    ensures Reached(n, 0, j) && Reached(n, 56, j)
  {
  }

  /** The listing of a file and the superblock after it. */
  lemma StoreListCut(v: Volume, u: Volume, p: U32, name: Str, n: U32, k: nat)
    requires Inv(v) && Synced(v) && Clean(v) && v.bitmap[0] && Inv(u) && Grown(v, u, n) && Orphan(u, n) && Steady(v, u)
    requires OffMarked(v.bitmap, v.disk, u.disk) && u.inodes[n].kind == FILE
    requires LiveDir(v.inodes, p) && u.inodes[n].parent == p && |name| < MAX_FILENAME && k <= |ListWrites(u, p, name, n)| + 1
    ensures var tail := ListWrites(u, p, name, n) + [SectorWrite(SUPERBLOCK_SECTOR, SuperSector(u.sb))];
      var r := Reload(Apply(u.disk, tail[..k]));
      (Inv(r) <==> ListCutSafe(v, p, n, u.inodes[n], k)) && (!Shadows(v, p, name) ==> Extends(v, r, {}))
  {
    hide DecodeDir, Apply, ListWrites, Synced, Clean, Inv, SuperSector, OffMarked, Reload, Extends, Roomy, SafeCut, Grown, Orphan, Steady,
      SyncNodes, AddEntry, NodeWrites, Upkept;
    var list, super := ListWrites(u, p, name, n), SectorWrite(SUPERBLOCK_SECTOR, SuperSector(u.sb));
    ConcatCut(u.disk, list, [super], k);
    ListStart(v, u, p, name, n, 0);
    NodeWritesLength(u.inodes, u.bitmap);
    if k <= |list| {
      ListCut(v, u, p, name, n, k);
    } else {
      var x := SyncNodes(AddEntry(u, p, name, n).0);
      var w := SyncSuper(x);
      assert [super][..1] == [super];
      ListWritesComplete(v, u, p, name, n);
      ListedDisk(v, u, p, name, n);
      ApplyOne(x.disk, super);
      ListedKeeps(v, u, p, name, n);
      ListedSynced(v, x);
      SyncSuperKeeps(x);
      UpkeptInv(x, w);
      NothingCut(w);
      if !Shadows(v, p, name) {
        ExtendsThen(v, x, w, {});
        ExtendsThen(v, w, Reload(w.disk), {});
      }
    }
  }

  lemma ListedSynced(v: Volume, x: Volume)
    requires Synced(v) && Upkept(v, x) && (SuperStored(v) ==> Synced(x))
    ensures Inv(x) && Synced(x)
  {
  }

  // ---------------------------------------------------------------- mkdir along a path

  /** The writes of `fs_create_dir`: those of the parents that it makes, then its own. */
  function CreateDirWrites(v: Volume, cs: Path): seq<SectorWrite>
    decreases |cs|, 0
  {
    if Name(cs) == [] || |Name(cs)| >= MAX_FILENAME || Resolve(v, cs) != NOT_FOUND then []
    else
      var (u, p) := EnsureDir(v, Parent(cs));
      EnsureDirWrites(v, Parent(cs)) + if p == NOT_FOUND then [] else MakeDirWrites(u, p, Name(cs))
  }

  function EnsureDirWrites(v: Volume, cs: Path): seq<SectorWrite>
    decreases |cs|, 1
  {
    if Resolve(v, cs) != NOT_FOUND then [] else CreateDirWrites(v, cs)
  }

  /** Whether the first `k` of them leave a sound disk: it depends on the directory being made at that moment. */
  ghost predicate CreateDirCutSafe(v: Volume, cs: Path, k: nat)
    decreases |cs|, 0
  {
    Name(cs) != [] && |Name(cs)| < MAX_FILENAME && Resolve(v, cs) == NOT_FOUND ==>
      var (u, p) := EnsureDir(v, Parent(cs));
      var m := |EnsureDirWrites(v, Parent(cs))|;
      if k <= m then EnsureDirCutSafe(v, Parent(cs), k) else p != NOT_FOUND ==> MakeDirCutSafe(u, p, Name(cs), k - m)
  }

  ghost predicate EnsureDirCutSafe(v: Volume, cs: Path, k: nat)
    decreases |cs|, 1
  {
    Resolve(v, cs) == NOT_FOUND ==> CreateDirCutSafe(v, cs, k)
  }

  /** A volume of which any operation may be cut. */
  ghost predicate Settled(v: Volume) { Inv(v) && Synced(v) && Clean(v) && v.bitmap[0] }

  lemma UpkeptSettled(v: Volume, w: Volume)
    requires Settled(v) && Upkept(v, w)
    ensures Settled(w)
  {
    hide Inv, Synced, Clean;
  }

  lemma {:induction false} CreateDirWritesComplete(v: Volume, cs: Path)
    requires Settled(v)
    ensures Apply(v.disk, CreateDirWrites(v, cs)) == CreateDir(v, cs).0.disk
    decreases |cs|, 0
  {
    hide Apply, MakeDir, MakeDirWrites, Walk, Inv, Synced, Clean, Upkept;
    ApplyNone(v.disk);
    if Name(cs) != [] && |Name(cs)| < MAX_FILENAME && Resolve(v, cs) == NOT_FOUND {
      var ps, name := Parent(cs), Name(cs);
      var (u, p) := EnsureDir(v, ps);
      var first := EnsureDirWrites(v, ps);
      EnsureDirUpkept(v, ps);
      EnsureDirWritesComplete(v, ps);
      UpkeptSettled(v, u);
      if p != NOT_FOUND {
        ApplyConcat(v.disk, first, MakeDirWrites(u, p, name));
        MakeDirWritesComplete(u, p, name);
      } else {
        assert first + [] == first;
      }
    }
  }

  lemma {:induction false} EnsureDirWritesComplete(v: Volume, cs: Path)
    requires Settled(v)
    ensures Apply(v.disk, EnsureDirWrites(v, cs)) == EnsureDir(v, cs).0.disk
    decreases |cs|, 1
  {
    hide Apply, CreateDir, CreateDirWrites, Walk, Settled;
    ApplyNone(v.disk);
    CreateDirWritesComplete(v, cs);
  }

  /** mkdir on any path, cut anywhere: exactly which cuts a reload survives. */
  lemma {:induction false} CreateDirCut(v: Volume, cs: Path, k: nat)
    requires Settled(v) && k <= |CreateDirWrites(v, cs)|
    ensures Inv(Reload(Apply(v.disk, CreateDirWrites(v, cs)[..k]))) <==> CreateDirCutSafe(v, cs, k)
    decreases |cs|, 0
  {
    hide Apply, MakeDir, MakeDirWrites, MakeDirCutSafe, Walk, Settled, Upkept, Reload, EnsureDirWrites, EnsureDirCutSafe, Extends, EnsureDir, Inv,
      CreateDirWrites, CreateDirCutSafe;
    CreateDirWritesAre(v, cs, k);
    if Name(cs) != [] && |Name(cs)| < MAX_FILENAME && Resolve(v, cs) == NOT_FOUND {
      var ps, name := Parent(cs), Name(cs);
      var (u, p) := EnsureDir(v, ps);
      var first := EnsureDirWrites(v, ps);
      EnsureSettled(v, ps);
      EnsureDirWritesComplete(v, ps);
      ConcatCut(v.disk, first, if p == NOT_FOUND then [] else MakeDirWrites(u, p, name), k);
      if k <= |first| {
        EnsureDirCut(v, ps, k);
      } else {
        EnsuredLive(v, ps);
        SettledMakeDirCut(u, p, name, k - |first|);
      }
    } else {
      assert CreateDirWrites(v, cs)[..k] == [];
      ApplyNone(v.disk);
      SettledNothing(v);
    }
  }

  lemma CreateDirWritesAre(v: Volume, cs: Path, k: nat)
    ensures
      if Name(cs) != [] && |Name(cs)| < MAX_FILENAME && Resolve(v, cs) == NOT_FOUND then
        var (u, p) := EnsureDir(v, Parent(cs));
        var first := EnsureDirWrites(v, Parent(cs));
        && CreateDirWrites(v, cs) == first + (if p == NOT_FOUND then [] else MakeDirWrites(u, p, Name(cs)))
        && (CreateDirCutSafe(v, cs, k) <==>
              if k <= |first| then EnsureDirCutSafe(v, Parent(cs), k) else p != NOT_FOUND ==> MakeDirCutSafe(u, p, Name(cs), k - |first|))
      else CreateDirWrites(v, cs) == [] && CreateDirCutSafe(v, cs, k)
  {
    hide MakeDirWrites, MakeDirCutSafe, EnsureDirWrites, EnsureDirCutSafe, EnsureDir, Walk;
  }

  lemma EnsuredLive(v: Volume, cs: Path)
    requires Settled(v)
    ensures var (u, p) := EnsureDir(v, cs); p != NOT_FOUND ==> p < MAX_INODES
  {
    hide EnsureDir, Upkept, Inv, Clean, Synced;
    EnsureDirUpkept(v, cs);
  }

  lemma SettledMakeDirCut(v: Volume, p: U32, name: Str, k: nat)
    requires Settled(v) && p < MAX_INODES && |name| < MAX_FILENAME && k <= |MakeDirWrites(v, p, name)|
    ensures Inv(Reload(Apply(v.disk, MakeDirWrites(v, p, name)[..k]))) <==> MakeDirCutSafe(v, p, name, k)
  {
    hide Apply, MakeDirWrites, MakeDirCutSafe, Reload, Inv, Clean, Synced, Extends, Shadows;
    MakeDirCut(v, p, name, k);
  }

  lemma {:induction false} EnsureDirCut(v: Volume, cs: Path, k: nat)
    requires Settled(v) && k <= |EnsureDirWrites(v, cs)|
    ensures Inv(Reload(Apply(v.disk, EnsureDirWrites(v, cs)[..k]))) <==> EnsureDirCutSafe(v, cs, k)
    decreases |cs|, 1
  {
    hide Apply, CreateDirWrites, CreateDirCutSafe, Walk, Inv, Synced, Clean, Reload, Extends;
    if Resolve(v, cs) == NOT_FOUND {
      CreateDirCut(v, cs, k);
    } else {
      assert EnsureDirWrites(v, cs)[..k] == [];
      ApplyNone(v.disk);
      NothingCut(v);
    }
  }

  /** Even where a cut is not safe, every path and file from before is as it was. */
  lemma {:induction false} CreateDirCutExtends(v: Volume, cs: Path, k: nat)
    requires Settled(v) && PlainTail(v, cs) && k <= |CreateDirWrites(v, cs)|
    ensures Extends(v, Reload(Apply(v.disk, CreateDirWrites(v, cs)[..k])), {})
    decreases |cs|, 1
  {
    hide Apply, MakeDir, MakeDirWrites, MakeDirCutSafe, Walk, Inv, Synced, Clean, Upkept, Reload, Extends, Shadows, Roomy, EnsureDir;
    if Name(cs) != [] && |Name(cs)| < MAX_FILENAME && Resolve(v, cs) == NOT_FOUND {
      var ps, name := Parent(cs), Name(cs);
      var (u, p) := EnsureDir(v, ps);
      var first := EnsureDirWrites(v, ps);
      EnsureDirUpkept(v, ps);
      EnsureDirWritesComplete(v, ps);
      EnsureDirPlain(v, cs);
      UpkeptSettled(v, u);
      ConcatCut(v.disk, first, if p == NOT_FOUND then [] else MakeDirWrites(u, p, name), k);
      if k <= |first| {
        EnsureDirCutExtends(v, cs, k);
      } else {
        MakeDirCut(u, p, name, k - |first|);
        ExtendsThen(v, u, Reload(Apply(u.disk, MakeDirWrites(u, p, name)[..k - |first|])), {});
      }
    } else {
      assert CreateDirWrites(v, cs)[..k] == [];
      ApplyNone(v.disk);
      NothingCut(v);
    }
  }

  lemma {:induction false} EnsureDirCutExtends(v: Volume, cs: Path, k: nat)
    requires Settled(v) && PlainTail(v, cs) && cs != [] && k <= |EnsureDirWrites(v, Parent(cs))|
    ensures Extends(v, Reload(Apply(v.disk, EnsureDirWrites(v, Parent(cs))[..k])), {})
    decreases |cs|, 0
  {
    hide Apply, CreateDirWrites, Walk, Inv, Synced, Clean, Reload, Extends;
    var ps := Parent(cs);
    assert ps == cs[..|cs| - 1];
    assert forall i | 0 <= i < |ps| :: ps[..i] == cs[..i];
    if Resolve(v, ps) == NOT_FOUND {
      CreateDirCutExtends(v, ps, k);
    } else {
      assert EnsureDirWrites(v, ps)[..k] == [];
      ApplyNone(v.disk);
      NothingCut(v);
    }
  }

  // ---------------------------------------------------------------- creating a file

  /** The writes of `fs_create_file`: of the parents it makes, of the delete of an old file, and of the new one. */
  function CreateFileWrites(v: Volume, cs: Path, data: seq<Byte>): seq<SectorWrite> {
    if !Acceptable(cs, data) then [] else
    var (u, p) := EnsureDir(v, Parent(cs));
    EnsureDirWrites(v, Parent(cs)) +
      if p == NOT_FOUND || KindOf(u, p) != DIR then [] else ReplaceWrites(u, p, cs, data)
  }

  ghost predicate CreateFileCutSafe(v: Volume, cs: Path, data: seq<Byte>, k: nat) {
    Acceptable(cs, data) ==>
      var (u, p) := EnsureDir(v, Parent(cs));
      var m := |EnsureDirWrites(v, Parent(cs))|;
      if k <= m then EnsureDirCutSafe(v, Parent(cs), k)
      else p != NOT_FOUND && KindOf(u, p) == DIR ==> ReplaceCutSafe(u, p, cs, data, k - m)
  }

  /** The part of a create that follows the making of parents. */
  function ReplaceWrites(u: Volume, p: U32, cs: Path, data: seq<Byte>): seq<SectorWrite>
    requires Acceptable(cs, data)
  {
    if Resolve(u, cs) == NOT_FOUND then StoreFileWrites(u, p, Name(cs), data)
    else DeleteWrites(u, cs) + StoreFileWrites(DeleteFile(u, cs).0, p, Name(cs), data)
  }

  ghost predicate ReplaceCutSafe(u: Volume, p: U32, cs: Path, data: seq<Byte>, k: nat)
    requires Acceptable(cs, data)
  {
    if Resolve(u, cs) == NOT_FOUND then StoreFileCutSafe(u, p, Name(cs), data, k)
    else var m := |DeleteWrites(u, cs)|;
      k > m ==> StoreFileCutSafe(DeleteFile(u, cs).0, p, Name(cs), data, k - m)
  }

  lemma DeleteSettled(u: Volume, cs: Path)
    requires Settled(u)
    ensures Settled(DeleteFile(u, cs).0)
  {
    hide Inv, Synced, Clean, Upkept, DeleteFile, Extends, Walk;
    DeleteFileKeeps(u, cs);
    UpkeptSettled(u, DeleteFile(u, cs).0);
  }

  lemma ReplaceWritesComplete(u: Volume, p: U32, cs: Path, data: seq<Byte>)
    requires Settled(u) && LiveDir(u.inodes, p) && Acceptable(cs, data)
    ensures var r := if Resolve(u, cs) != NOT_FOUND then DeleteFile(u, cs).0 else u;
      Apply(u.disk, ReplaceWrites(u, p, cs, data)) == StoreFile(r, p, Name(cs), data).0.disk && LiveDir(r.inodes, p)
  {
    hide Apply, StoreFile, StoreFileWrites, DeleteWrites, DeleteFile, Inv, Synced, Clean, Walk, DirsKept;
    if Resolve(u, cs) == NOT_FOUND {
      StoreFileWritesComplete(u, p, Name(cs), data);
    } else {
      var r := DeleteFile(u, cs).0;
      DeleteSettled(u, cs);
      DeleteFileDirsKept(u, cs);
      DirsKeptLive(u, r, p);
      DeleteWritesComplete(u, cs);
      ApplyConcat(u.disk, DeleteWrites(u, cs), StoreFileWrites(r, p, Name(cs), data));
      StoreFileWritesComplete(r, p, Name(cs), data);
    }
  }

  lemma CreateFileWritesComplete(v: Volume, cs: Path, data: seq<Byte>)
    requires Settled(v)
    ensures Apply(v.disk, CreateFileWrites(v, cs, data)) == CreateFile(v, cs, data).0.disk
  {
    hide Apply, StoreFile, StoreFileWrites, DeleteWrites, DeleteFile, Settled, Walk, DirsKept, EnsureDir, EnsureDirWrites, Upkept;
    ApplyNone(v.disk);
    if Acceptable(cs, data) {
      var (u, p) := EnsureDir(v, Parent(cs));
      var first := EnsureDirWrites(v, Parent(cs));
      EnsureSettled(v, Parent(cs));
      EnsureDirWritesComplete(v, Parent(cs));
      if p == NOT_FOUND || KindOf(u, p) != DIR {
        assert first + [] == first;
      } else {
        ApplyConcat(v.disk, first, ReplaceWrites(u, p, cs, data));
        ReplaceWritesComplete(u, p, cs, data);
      }
    }
  }

  lemma EnsureSettled(v: Volume, cs: Path)
    requires Settled(v)
    ensures Settled(EnsureDir(v, cs).0)
  {
    hide Inv, Synced, Clean, Upkept, EnsureDir;
    EnsureDirUpkept(v, cs);
    UpkeptSettled(v, EnsureDir(v, cs).0);
  }

  /** Replacing or storing, cut anywhere. */
  lemma ReplaceCut(u: Volume, p: U32, cs: Path, data: seq<Byte>, k: nat)
    requires Settled(u) && LiveDir(u.inodes, p) && Acceptable(cs, data) && k <= |ReplaceWrites(u, p, cs, data)|
    ensures Inv(Reload(Apply(u.disk, ReplaceWrites(u, p, cs, data)[..k]))) <==> ReplaceCutSafe(u, p, cs, data, k)
  {
    hide Apply, StoreFileWrites, StoreFileCutSafe, DeleteWrites, DeleteFile, Settled, Inv, Walk, Reload, Extends;
    if Resolve(u, cs) == NOT_FOUND {
      SettledStoreFileCut(u, p, Name(cs), data, k);
    } else {
      var r := DeleteFile(u, cs).0;
      var gone := DeleteWrites(u, cs);
      DeleteSettled(u, cs);
      DeletedParent(u, p, cs);
      ConcatCut(u.disk, gone, StoreFileWrites(r, p, Name(cs), data), k);
      if k <= |gone| {
        DeleteCut(u, cs, k);
      } else {
        SettledStoreFileCut(r, p, Name(cs), data, k - |gone|);
      }
    }
  }

  lemma DeletedParent(u: Volume, p: U32, cs: Path)
    requires Settled(u) && LiveDir(u.inodes, p)
    ensures LiveDir(DeleteFile(u, cs).0.inodes, p) && Apply(u.disk, DeleteWrites(u, cs)) == DeleteFile(u, cs).0.disk
  {
    hide Apply, DeleteWrites, DeleteFile, Inv, Synced, Clean, DirsKept;
    DeleteFileDirsKept(u, cs);
    DirsKeptLive(u, DeleteFile(u, cs).0, p);
    DeleteWritesComplete(u, cs);
  }

  lemma SettledStoreFileCut(v: Volume, p: U32, name: Str, data: seq<Byte>, k: nat)
    requires Settled(v) && LiveDir(v.inodes, p) && |name| < MAX_FILENAME && |data| <= MAX_FILE_SIZE && k <= |StoreFileWrites(v, p, name, data)|
    ensures Inv(Reload(Apply(v.disk, StoreFileWrites(v, p, name, data)[..k]))) <==> StoreFileCutSafe(v, p, name, data, k)
  {
    hide Apply, StoreFileWrites, StoreFileCutSafe, Reload, Inv, Clean, Synced, Extends, Shadows;
    StoreFileCut(v, p, name, data, k);
  }

  lemma DeleteCut(u: Volume, cs: Path, k: nat)
    requires Settled(u) && k <= |DeleteWrites(u, cs)|
    ensures var r := Reload(Apply(u.disk, DeleteWrites(u, cs)[..k])); Inv(r) && Extends(u, r, Replaced(u, cs))
  {
    hide Apply, Inv, Synced, Clean, Walk, Reload, Extends, NodeWrites;
    if ResolvesToFile(u, cs) {
      CrashDuringDelete(u, cs, k);
    } else {
      assert DeleteWrites(u, cs)[..k] == [];
      ApplyNone(u.disk);
      NothingCut(u);
    }
  }

  /** Creating a file under any path, cut anywhere: exactly which cuts a reload survives. */
  lemma CreateFileCut(v: Volume, cs: Path, data: seq<Byte>, k: nat)
    requires Settled(v) && k <= |CreateFileWrites(v, cs, data)|
    ensures Inv(Reload(Apply(v.disk, CreateFileWrites(v, cs, data)[..k]))) <==> CreateFileCutSafe(v, cs, data, k)
  {
    hide Apply, StoreFileWrites, StoreFileCutSafe, DeleteWrites, DeleteFile, Settled, Walk, EnsureDir, EnsureDirWrites, EnsureDirCutSafe, Reload, Inv,
      Extends;
    if Acceptable(cs, data) {
      var (u, p) := EnsureDir(v, Parent(cs));
      var first := EnsureDirWrites(v, Parent(cs));
      EnsureSettled(v, Parent(cs));
      EnsureDirWritesComplete(v, Parent(cs));
      ConcatCut(v.disk, first, if p == NOT_FOUND || KindOf(u, p) != DIR then [] else ReplaceWrites(u, p, cs, data), k);
      if k <= |first| {
        EnsureDirCut(v, Parent(cs), k);
      } else {
        ReplaceCut(u, p, cs, data, k - |first|);
      }
    } else {
      assert CreateFileWrites(v, cs, data)[..k] == [];
      ApplyNone(v.disk);
      SettledNothing(v);
    }
  }

  lemma SettledNothing(v: Volume)
    requires Settled(v)
    ensures Inv(Reload(v.disk)) && Extends(v, Reload(v.disk), {})
  {
    hide Inv, Synced, Clean, Reload, Extends;
    NothingCut(v);
  }

  /** Where no name is duplicated, no cut touches any other path or file, whether it is safe or not. */
  lemma CreateFileCutExtends(v: Volume, cs: Path, data: seq<Byte>, k: nat)
    requires Settled(v) && Unique(v) && PlainTail(v, cs) && !ResolvesToDir(v, cs) && k <= |CreateFileWrites(v, cs, data)|
    ensures Extends(v, Reload(Apply(v.disk, CreateFileWrites(v, cs, data)[..k])), Replaced(v, cs))
  {
    hide Apply, StoreFileWrites, DeleteWrites, DeleteFile, Walk, EnsureDir, EnsureDirWrites, Reload, Inv, Synced, Clean, Extends, Shadows, Roomy,
      Unique, Clashes;
    if !Acceptable(cs, data) {
      assert CreateFileWrites(v, cs, data)[..k] == [];
      ApplyNone(v.disk);
      NothingCut(v);
      WithoutReplaced(v, Reload(v.disk), cs);
    } else {
      var ps := Parent(cs);
      var (u, p) := EnsureDir(v, ps);
      var first := EnsureDirWrites(v, ps);
      EnsureSettled(v, ps);
      EnsureDirWritesComplete(v, ps);
      ConcatCut(v.disk, first, if p == NOT_FOUND || KindOf(u, p) != DIR then [] else ReplaceWrites(u, p, cs, data), k);
      if k <= |first| {
        EnsureDirCutExtends(v, cs, k);
        WithoutReplaced(v, Reload(Apply(v.disk, first[..k])), cs);
      } else {
        ReplaceCutExtends(v, u, p, cs, data, k - |first|);
      }
    }
  }

  /** What leaves everything leaves everything but the file to be replaced. */
  lemma WithoutReplaced(v: Volume, r: Volume, cs: Path)
    requires Inv(v) && Extends(v, r, {})
    ensures Extends(v, r, Replaced(v, cs))
  {
    hide DecodeDir, Walk, Inv;
    ResolveLands(v, cs);
    forall i: U32, nm | LiveDir(v.inodes, i)
      ensures StepKept(v, r, i, nm, Replaced(v, cs))
    {
      assert StepKept(v, r, i, nm, {});
    }
  }

  lemma ReplaceCutExtends(v: Volume, u: Volume, p: U32, cs: Path, data: seq<Byte>, k: nat)
    requires Settled(v) && Unique(v) && PlainTail(v, cs) && !ResolvesToDir(v, cs) && Acceptable(cs, data)
    requires (u, p) == EnsureDir(v, Parent(cs)) && p != NOT_FOUND && KindOf(u, p) == DIR && k <= |ReplaceWrites(u, p, cs, data)|
    ensures Extends(v, Reload(Apply(u.disk, ReplaceWrites(u, p, cs, data)[..k])), Replaced(v, cs))
  {
    hide Apply, StoreFileWrites, DeleteWrites, DeleteFile, Walk, EnsureDir, Reload, Inv, Synced, Clean, Extends, Shadows, Roomy, Unique, Clashes,
      Upkept, DirsKept;
    EnsureSettled(v, Parent(cs));
    ReadyPlain(v, cs);
    ReadyKeeps(v, cs);
    var (r, q) := Ready(v, cs);
    if Resolve(u, cs) == NOT_FOUND {
      StoreFileCut(u, p, Name(cs), data, k);
      ExtendsThen(v, u, Reload(Apply(u.disk, StoreFileWrites(u, p, Name(cs), data)[..k])), Replaced(v, cs));
    } else {
      var gone := DeleteWrites(u, cs);
      DeleteSettled(u, cs);
      DeleteWritesComplete(u, cs);
      ConcatCut(u.disk, gone, StoreFileWrites(r, p, Name(cs), data), k);
      if k <= |gone| {
        DeleteCut(u, cs, k);
        assert u == v by { ReplacedInPlace(v, cs); }
      } else {
        StoreFileCut(r, p, Name(cs), data, k - |gone|);
        ExtendsThen(v, r, Reload(Apply(r.disk, StoreFileWrites(r, p, Name(cs), data)[..k - |gone|])), Replaced(v, cs));
      }
    }
  }

  /** Only an old file is ever found where the new one goes, and then no parent was missing. */
  lemma ReplacedInPlace(v: Volume, cs: Path)
    requires Inv(v) && v.bitmap[0] && Unique(v) && PlainTail(v, cs) && cs != [] && |Name(cs)| < MAX_FILENAME
    requires var (u, p) := EnsureDir(v, Parent(cs)); p != NOT_FOUND && Resolve(u, cs) != NOT_FOUND
    ensures EnsureDir(v, Parent(cs)).0 == v
  {
    hide Walk, Inv, Unique, Extends, Shadows, Roomy, EnsureDir, Upkept;
    var (u, p) := EnsureDir(v, Parent(cs));
    WalkSplit(v, v.sb.rootInode, cs);
    if Resolve(v, Parent(cs)) == NOT_FOUND {
      EnsureDirPlain(v, cs);
      EnsureDirUpkept(v, Parent(cs));
      WalkSplit(u, u.sb.rootInode, cs);
    } else {
      EnsureExisting(v, Parent(cs));
    }
  }
}
