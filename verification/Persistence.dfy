/** What is on disk: after every operation a reboot finds the same files under the same paths. */
module Persistence {
  import opened Bytes
  import opened Layout
  import opened Paths
  import opened Volumes
  import opened Invariants

  /** The stored table has every byte of every live inode, and the type of a free one. */
  ghost predicate TableStored(d: Disk, t: InodeTable) {
    forall i, o | 0 <= i < MAX_INODES && 0 <= o < INODE_SIZE && (o == 0 || t[i].kind != FREE) ::
      StoredByte(d, i, o) == InodeByte(t[i], o)
  }

  /** On disk, too, free inodes have size 0 and no blocks. */
  ghost predicate BlankStored(d: Disk, t: InodeTable) {
    forall i, o | 0 <= i < MAX_INODES && 4 <= o < 56 && t[i].kind == FREE :: StoredByte(d, i, o) == 0
  }

  /** Nothing has leaked, in memory or on disk. */
  ghost predicate Clean(v: Volume) { Tidy(v) && BlankStored(v.disk, v.inodes) }

  /** Superblocks that agree on everything but the two free counters. */
  ghost predicate SameSuper(a: Superblock, b: Superblock) {
    a.(freeInodes := 0, freeBlocks := 0) == b.(freeInodes := 0, freeBlocks := 0)
  }

  ghost predicate SuperStored(v: Volume) { SameSuper(LoadSuper(v.disk), v.sb) }

  /** Memory and disk agree, up to the free counters and the other fields of free inodes. */
  ghost predicate Synced(v: Volume) {
    TableStored(v.disk, v.inodes) && v.disk[BLOCK_BITMAP_SECTOR] == BitmapSector(v.bitmap) && SuperStored(v)
  }

  ghost predicate SameNode(a: Inode, b: Inode) {
    a == b || (a.kind == FREE && b.kind == FREE)
  }

  ghost predicate SameNodes(t: InodeTable, t': InodeTable) {
    forall i | 0 <= i < MAX_INODES :: SameNode(t[i], t'[i])
  }

  lemma StoreTableStores(d: Disk, t: InodeTable, i: nat, o: nat)
    requires i < MAX_INODES && o < INODE_SIZE
    ensures StoredByte(StoreTable(d, t), i, o) == InodeByte(t[i], o)
  {
    hide InodeByte;
    var x := INODE_SIZE * i + o;
    var k, q := x / BLOCK_SIZE, x % BLOCK_SIZE;
    assert StoreTable(d, t)[INODE_TABLE_SECTOR + k] == TableSector(t, k);
    assert TableSector(t, k)[q] == TableByte(t, k, q);
    assert x / INODE_SIZE == i && x % INODE_SIZE == o by { RecordAt(i, o); }
  }

  lemma RecordAt(i: nat, o: nat)
    requires o < INODE_SIZE
    ensures (INODE_SIZE * i + o) / INODE_SIZE == i && (INODE_SIZE * i + o) % INODE_SIZE == o
  {
  }

  /** Writing the nodes brings table and bitmap up to date and touches no other sector. */
  lemma SyncNodesSyncs(v: Volume)
    requires SuperStored(v)
    ensures Synced(SyncNodes(v))
    ensures forall s | DATA_START_SECTOR <= s < DISK_SECTORS :: SyncNodes(v).disk[s] == v.disk[s]
  {
    hide StoredByte, InodeByte, TableSector, BitmapSector;
    var w := SyncNodes(v);
    forall i, o | 0 <= i < MAX_INODES && 0 <= o < INODE_SIZE
      ensures StoredByte(w.disk, i, o) == InodeByte(v.inodes[i], o)
    {
      StoreTableStores(v.disk, v.inodes, i, o);
      StoredByteFrame(StoreTable(v.disk, v.inodes), w.disk, i, o);
    }
  }

  lemma StoredByteFrame(d: Disk, d': Disk, i: nat, o: nat)
    requires i < MAX_INODES && o < INODE_SIZE
    requires forall s | INODE_TABLE_SECTOR <= s < INODE_TABLE_SECTOR + TABLE_SECTORS :: d'[s] == d[s]
    ensures StoredByte(d', i, o) == StoredByte(d, i, o)
  {
  }

  lemma SyncSuperSyncs(v: Volume)
    requires Synced(v)
    ensures Synced(SyncSuper(v)) && LoadSuper(SyncSuper(v).disk) == v.sb
    ensures forall s | DATA_START_SECTOR <= s < DISK_SECTORS :: SyncSuper(v).disk[s] == v.disk[s]
  {
    hide StoredByte, InodeByte, BitmapSector, LoadSuper;
    SuperRoundTrip(SyncSuper(v).disk, v.sb);
    forall i, o | 0 <= i < MAX_INODES && 0 <= o < INODE_SIZE
      ensures StoredByte(SyncSuper(v).disk, i, o) == StoredByte(v.disk, i, o)
    {
      StoredByteFrame(v.disk, SyncSuper(v).disk, i, o);
    }
  }

  lemma SuperOfSector(d: Disk, e: Disk)
    requires d[SUPERBLOCK_SECTOR] == e[SUPERBLOCK_SECTOR]
    ensures LoadSuper(d) == LoadSuper(e)
  {
  }

  lemma SameNodeBytes(a: Inode, b: Inode, o: nat)
    requires SameNode(a, b) && o < INODE_SIZE && (o == 0 || b.kind != FREE)
    ensures InodeByte(a, o) == InodeByte(b, o)
  {
  }

  lemma TableStoredFrame(d: Disk, e: Disk, t: InodeTable)
    requires TableStored(d, t) && forall s | 0 <= s < DATA_START_SECTOR :: e[s] == d[s]
    ensures TableStored(e, t)
  {
    hide StoredByte, InodeByte;
    forall i, o | 0 <= i < MAX_INODES && 0 <= o < INODE_SIZE
      ensures StoredByte(e, i, o) == StoredByte(d, i, o)
    {
      StoredByteFrame(d, e, i, o);
    }
  }

  /** Data writes do not disturb what is synced. */
  lemma SyncedFrame(v: Volume, w: Volume)
    requires Synced(v) && w.bitmap == v.bitmap && SameSuper(v.sb, w.sb) && SameNodes(v.inodes, w.inodes)
    requires forall s | 0 <= s < DATA_START_SECTOR :: w.disk[s] == v.disk[s]
    ensures Synced(w)
  {
    hide StoredByte, InodeByte, BitmapSector;
    forall i, o | 0 <= i < MAX_INODES && 0 <= o < INODE_SIZE && (o == 0 || w.inodes[i].kind != FREE)
      ensures StoredByte(w.disk, i, o) == InodeByte(w.inodes[i], o)
    {
      StoredByteFrame(v.disk, w.disk, i, o);
      assert SameNode(v.inodes[i], w.inodes[i]);
      SameNodeBytes(v.inodes[i], w.inodes[i], o);
    }
  }

  // ---------------------------------------------------------------- reboot

  /** The stored record of inode `i` is that of `node`, or, if `node` is free, has its type. */
  ghost predicate RowStored(d: Disk, node: Inode, i: nat)
    requires i < MAX_INODES
  {
    forall o | 0 <= o < INODE_SIZE && (o == 0 || node.kind != FREE) :: StoredByte(d, i, o) == InodeByte(node, o)
  }

  lemma LoadRow(d: Disk, node: Inode, i: nat)
    requires i < MAX_INODES && RowStored(d, node, i)
    ensures SameNode(node, LoadInode(d, i))
  {
    hide DecodeInode, InodeByte;
    var bs := StoredRecord(d, i);
    assert bs[0] == StoredByte(d, i, 0) == InodeByte(node, 0);
    if node.kind == FREE {
      FirstByteIsKind(bs, node);
    } else {
      assert forall o | 0 <= o < INODE_SIZE :: bs[o] == StoredByte(d, i, o);
      InodeRoundTrip(bs, node);
    }
  }

  lemma FirstByteIsKind(bs: Record, n: Inode)
    ensures DecodeInode(bs).kind == bs[0] && InodeByte(n, 0) == n.kind
  {
  }

  /** Loading gives back what was synced. */
  lemma ReloadSame(v: Volume)
    requires Synced(v)
    ensures var r := Reload(v.disk);
      r.disk == v.disk && r.bitmap == v.bitmap && SameSuper(r.sb, v.sb) && SameNodes(v.inodes, r.inodes)
  {
    hide LoadInode, LoadSuper, LoadBitmap, StoredByte, InodeByte;
    BitmapRoundTrip(v.disk, v.bitmap);
    forall i | 0 <= i < MAX_INODES
      ensures SameNode(v.inodes[i], Reload(v.disk).inodes[i])
    {
      assert RowStored(v.disk, v.inodes[i], i);
      LoadRow(v.disk, v.inodes[i], i);
    }
  }

  lemma BlankLoads(d: Disk, i: nat)
    requires i < MAX_INODES && forall o | 4 <= o < 56 :: StoredByte(d, i, o) == 0
    ensures LoadInode(d, i).size == 0 && LoadInode(d, i).blocks == NoBlocks()
  {
    hide StoredByte, DecodeInode;
    var bs := StoredRecord(d, i);
    assert forall o | 4 <= o < 56 :: bs[o] == StoredByte(d, i, o);
    BlankRecord(bs);
  }

  ghost predicate ZeroImage(bs: Record) { forall o | 4 <= o < 56 :: bs[o] == 0 }

  lemma BlankRecord(bs: Record)
    requires ZeroImage(bs)
    ensures DecodeInode(bs).size == 0 && DecodeInode(bs).blocks == NoBlocks()
  {
    hide Le, ZeroImage;
    BlankWord(bs, 4);
    forall j | 0 <= j < DIRECT_BLOCKS
      ensures DecodeInode(bs).blocks[j] == 0
    {
      BlankWord(bs, 8 + 4 * j);
    }
    assert DecodeInode(bs).blocks == NoBlocks();
  }

  lemma BlankWord(bs: Record, o: nat)
    requires 4 <= o <= 52 && ZeroImage(bs)
    ensures Le(bs, o) == 0
  {
    assert bs[o] == 0 && bs[o + 1] == 0 && bs[o + 2] == 0 && bs[o + 3] == 0;
  }

  /** A reload of a clean volume is clean. */
  lemma ReloadClean(v: Volume)
    requires Synced(v) && Clean(v)
    ensures Clean(Reload(v.disk))
  {
    hide LoadInode, LoadSuper, LoadBitmap, StoredByte;
    var r := Reload(v.disk);
    ReloadSame(v);
    forall i | 0 <= i < MAX_INODES && r.inodes[i].kind == FREE
      ensures r.inodes[i].size == 0 && r.inodes[i].blocks == NoBlocks()
    {
      assert SameNode(v.inodes[i], r.inodes[i]);
      BlankLoads(v.disk, i);
    }
    assert forall i | 0 <= i < MAX_INODES :: SameNode(v.inodes[i], r.inodes[i]);
    forall b | 0 < b < MAX_BLOCKS && r.bitmap[b]
      ensures Held(r.inodes, b)
    {
      var i, j :| Holds(v.inodes, i, j, b);
      assert Holds(r.inodes, i, j, b);
    }
  }

  /** A sync leaves free inodes on disk as blank as they are in memory. */
  lemma SyncNodesBlank(v: Volume)
    ensures Blank(v.inodes) ==> BlankStored(SyncNodes(v).disk, v.inodes)
  {
    hide StoredByte, TableSector, BitmapSector;
    if Blank(v.inodes) {
      forall i, o | 0 <= i < MAX_INODES && 4 <= o < 56 && v.inodes[i].kind == FREE
        ensures StoredByte(SyncNodes(v).disk, i, o) == 0
      {
        StoreTableStores(v.disk, v.inodes, i, o);
        StoredByteFrame(StoreTable(v.disk, v.inodes), SyncNodes(v).disk, i, o);
        BlankByte(v.inodes[i], o);
      }
    }
  }

  lemma BlankByte(n: Inode, o: nat)
    requires n.size == 0 && n.blocks == NoBlocks() && 4 <= o < 56
    ensures InodeByte(n, o) == 0
  {
  }

  lemma BlankStoredFrame(d: Disk, e: Disk, t: InodeTable, t': InodeTable)
    requires BlankStored(d, t) && forall s | INODE_TABLE_SECTOR <= s < INODE_TABLE_SECTOR + TABLE_SECTORS :: e[s] == d[s]
    requires forall i | 0 <= i < MAX_INODES && t'[i].kind == FREE :: t[i].kind == FREE
    ensures BlankStored(e, t')
  {
    hide StoredByte;
    forall i, o | 0 <= i < MAX_INODES && 4 <= o < 56 && t'[i].kind == FREE
      ensures StoredByte(e, i, o) == 0
    {
      StoredByteFrame(d, e, i, o);
    }
  }

  /** A reboot keeps the invariant. */
  lemma RebootKeeps(v: Volume)
    requires Inv(v) && Synced(v)
    ensures var r := Reload(v.disk);
      Inv(r) && Synced(r) && (v.bitmap[0] ==> r.bitmap[0]) && (Clean(v) ==> Clean(r))
  {
    hide Reload, Clean;
    ReloadSame(v);
    SyncedFrame(v, Reload(v.disk));
    SameNodesInv(v, Reload(v.disk));
    if Clean(v) {
      ReloadClean(v);
    }
  }

  /** After a reboot every path resolves, to the same inode, exactly when it did, and every file reads the same. */
  lemma RebootKeepsPaths(v: Volume, cs: Path, max: U32)
    requires Synced(v)
    ensures var r := Reload(v.disk);
      && Resolve(r, cs) == Resolve(v, cs) && KindOf(r, Resolve(r, cs)) == KindOf(v, Resolve(v, cs))
      && ReadFile(r, cs, max) == ReadFile(v, cs, max)
  {
    hide Reload, DecodeDir;
    var r := Reload(v.disk);
    ReloadSame(v);
    SameWalk(v, r, v.sb.rootInode, cs);
    var n := Resolve(v, cs);
    if n < MAX_INODES {
      assert SameNode(v.inodes[n], r.inodes[n]);
      if v.inodes[n].kind == FILE {
        SameContents(v, r, n, if v.inodes[n].size > max then max else v.inodes[n].size);
      }
    }
  }

  lemma SameContents(v: Volume, r: Volume, n: U32, len: nat)
    requires n < MAX_INODES && r.inodes[n] == v.inodes[n] && r.disk == v.disk
    ensures Contents(r, n, len) == Contents(v, n, len)
  {
    assert forall k: nat | k < DIRECT_BLOCKS * BLOCK_SIZE :: FileByte(r, n, k) == FileByte(v, n, k);
  }

  lemma SameNodesInv(v: Volume, r: Volume)
    requires Inv(v) && SameNodes(v.inodes, r.inodes)
    requires r.bitmap == v.bitmap && r.disk == v.disk && r.sb.rootInode == v.sb.rootInode
    ensures Inv(r)
  {
    hide DecodeDir;
    var t, t' := v.inodes, r.inodes;
    assert forall i | 0 <= i < MAX_INODES :: SameNode(t[i], t'[i]);
    forall i | 0 <= i < MAX_INODES
      ensures NodeOk(t', i)
    {
      assert NodeOk(t, i);
    }
    HoldingsFrame(t, t', v.bitmap);
    SameDepths(t, t');
    DirsFrame(v, r);
  }

  lemma {:induction false} SameFreeNodes(t: InodeTable, r: InodeTable, n: nat)
    requires SameNodes(t, r) && n <= MAX_INODES
    ensures FreeNodes(r, n) == FreeNodes(t, n)
  {
    if n > 0 {
      SameFreeNodes(t, r, n - 1);
      assert SameNode(t[n - 1], r[n - 1]);
    }
  }

  lemma {:induction false} SameWalk(v: Volume, r: Volume, i: U32, cs: Path)
    requires SameNodes(v.inodes, r.inodes) && r.disk == v.disk
    ensures Walk(r, i, cs) == Walk(v, i, cs)
    decreases |cs|
  {
    hide DecodeDir;
    if cs != [] {
      assert i < MAX_INODES ==> SameNode(v.inodes[i], r.inodes[i]);
      SameWalk(v, r, Step(v, i, cs[0]), cs[1..]);
    }
  }
}
