/** Listing a new inode in a directory, cut off in the middle: exactly when a reload finds a sound volume. */
module Listing {
  import opened Bytes
  import opened Layout
  import opened Paths
  import opened Volumes
  import opened Invariants
  import opened Isolation
  import opened Persistence
  import opened Growth
  import opened Directories
  import opened Mkdir
  import opened Writes

  /** The writes that list inode `n` in directory `p`: the directory block, the inode table, the bitmap. */
  function ListWrites(u: Volume, p: U32, name: Str, n: U32): seq<SectorWrite>
    requires |name| < MAX_FILENAME
  {
    var b := FirstBlock(u, p);
    BlockWrites(b, ReadBlock(AddEntry(u, p, name, n).0, b)) + NodeWrites(u.inodes, u.bitmap)
  }

  /** An entry added to directory `p` will be found on disk. */
  predicate Lands(v: Volume, p: U32) { Searchable(v, p) && FreeSlot(Entries(v, p)) < 14 }

  // ---------------------------------------------------------------- one inode in the middle of a sync

  /** Byte `o` of inode `n` lies in one of the first `j` sectors of the table. */
  predicate Reached(n: nat, o: nat, j: nat) { (INODE_SIZE * n + o) / BLOCK_SIZE < j }

  function CutBlock(was: Inode, now: Inode, n: nat, j: nat, q: nat): U32
    requires q < DIRECT_BLOCKS
  {
    if Reached(n, 8 + 4 * q, j) then now.blocks[q] else was.blocks[q]
  }

  /** Inode `n` when `j` sectors of a table with `now` are written over one with `was`. */
  function CutNode(was: Inode, now: Inode, n: nat, j: nat): Inode {
    Inode(if Reached(n, 0, j) then now.kind else was.kind,
          if Reached(n, 4, j) then now.size else was.size,
          seq<U32>(DIRECT_BLOCKS, q requires 0 <= q < DIRECT_BLOCKS => CutBlock(was, now, n, j, q)),
          if Reached(n, 56, j) then now.parent else was.parent)
  }

  function Image(node: Inode): Record {
    seq<Byte>(INODE_SIZE, o requires 0 <= o < INODE_SIZE => InodeByte(node, o))
  }

  /** The four bytes of a field never straddle a sector. */
  lemma FieldReached(n: nat, o: nat, q: nat, j: nat)
    requires o % 4 == 0 && q < 4
    ensures Reached(n, o + q, j) <==> Reached(n, o, j)
  {
    var x := INODE_SIZE * n + o;
    var y := 15 * n + o / 4;
    assert x == 4 * y;
    assert x / BLOCK_SIZE == y / 128 && (x + q) / BLOCK_SIZE == y / 128;
  }

  lemma CutWord(d: Disk, e: Disk, t': InodeTable, j: nat, n: nat, o: nat)
    requires j <= TABLE_SECTORS && n < MAX_INODES && PartSynced(d, e, t', j) && o % 4 == 0 && o < INODE_SIZE
    ensures Le(StoredRecord(e, n), o) == if Reached(n, o, j) then Le(Image(t'[n]), o) else Le(StoredRecord(d, n), o)
  {
    hide StoredByte, InodeByte, PartSynced, Reached, Le, Image;
    CutByte(d, e, t', j, n, o, 0);
    CutByte(d, e, t', j, n, o, 1);
    CutByte(d, e, t', j, n, o, 2);
    CutByte(d, e, t', j, n, o, 3);
    if Reached(n, o, j) {
      SameWord(StoredRecord(e, n), Image(t'[n]), o);
    } else {
      SameWord(StoredRecord(e, n), StoredRecord(d, n), o);
    }
  }

  lemma SameWord(a: Record, b: Record, o: nat)
    requires o + 4 <= INODE_SIZE && a[o] == b[o] && a[o + 1] == b[o + 1] && a[o + 2] == b[o + 2] && a[o + 3] == b[o + 3]
    ensures Le(a, o) == Le(b, o)
  {
  }

  lemma CutByte(d: Disk, e: Disk, t': InodeTable, j: nat, n: nat, o: nat, q: nat)
    requires j <= TABLE_SECTORS && n < MAX_INODES && PartSynced(d, e, t', j) && o % 4 == 0 && o < INODE_SIZE && q < 4
    ensures o + q < INODE_SIZE
    ensures StoredRecord(e, n)[o + q] == if Reached(n, o, j) then Image(t'[n])[o + q] else StoredRecord(d, n)[o + q]
  {
    hide StoredByte, InodeByte, PartSynced, Reached;
    FieldReached(n, o, q, j);
    MixedByte(d, e, t', j, n, o + q);
    ReachedIs(n, o + q, j);
  }

  lemma ReachedIs(n: nat, o: nat, j: nat)
    ensures Reached(n, o, j) <==> (INODE_SIZE * n + o) / BLOCK_SIZE < j
  {
  }

  lemma ImageIs(node: Inode)
    ensures Images(Image(node), node)
  {
    hide InodeByte;
  }

  lemma LoadCut(d: Disk, e: Disk, t': InodeTable, j: nat, n: nat)
    requires j <= TABLE_SECTORS && n < MAX_INODES && PartSynced(d, e, t', j)
    ensures LoadInode(e, n) == CutNode(LoadInode(d, n), t'[n], n, j)
  {
    hide StoredByte, InodeByte, PartSynced, Reached, Le, Images, Image;
    ImageIs(t'[n]);
    SizeAndParentWords(Image(t'[n]), t'[n]);
    CutWord(d, e, t', j, n, 4);
    CutWord(d, e, t', j, n, 56);
    MixedByte(d, e, t', j, n, 0);
    ReachedIs(n, 0, j);
    KindByte(t'[n]);
    forall q | 0 <= q < DIRECT_BLOCKS
      ensures LoadInode(e, n).blocks[q] == CutBlock(LoadInode(d, n), t'[n], n, j, q)
    {
      CutWord(d, e, t', j, n, 8 + 4 * q);
      BlockWord(Image(t'[n]), t'[n], q);
      assert LoadInode(d, n).blocks[q] == Le(StoredRecord(d, n), 8 + 4 * q);
    }
    assert LoadInode(e, n).blocks == CutNode(LoadInode(d, n), t'[n], n, j).blocks;
  }

  lemma KindByte(node: Inode)
    ensures InodeByte(node, 0) == node.kind
  {
  }

  // ---------------------------------------------------------------- what a reload finds

  /** Whether a reload is sound that finds the new inode as `m`, listed in `p`, and the bitmap as it was: the inode is not
      there yet and no entry names it, or it is there without blocks and in its place. */
  ghost predicate SafeNode(v: Volume, p: U32, m: Inode) {
    if m.kind == FREE then !Lands(v, p)
    else m.blocks == NoBlocks() && if Lands(v, p) then m.parent == p else LiveDir(v.inodes, m.parent)
  }

  /** The same when `j` sectors of the table, but not the bitmap, are written. */
  ghost predicate SafeCut(v: Volume, p: U32, n: U32, node: Inode, j: nat)
    requires n < MAX_INODES
  {
    SafeNode(v, p, CutNode(LoadInode(v.disk, n), node, n, j))
  }

  /** The volume of which the reload is a copy up to the fields of free inodes. */
  function Half(v: Volume, n: U32, m: Inode, e: Disk): Volume
    requires n < MAX_INODES
  {
    Volume(v.sb, v.inodes[n := m], v.bitmap, e)
  }

  /** What all cuts have in common: inode `n` of `v` is free, and the disk shows the directories of `v` but for the
      entry of `n` in `p`, if that landed. */
  ghost predicate HalfListed(v: Volume, p: U32, name: Str, n: U32, e: Disk)
    requires |name| < MAX_FILENAME
  {
    && n < MAX_INODES && v.inodes[n].kind == FREE && LiveDir(v.inodes, p)
    && (forall d: U32 | OpenDir(v.inodes, d) && d != p :: DecodeDir(ReadOf(e, v.inodes[d].blocks[0])) == Entries(v, d))
    && (OpenDir(v.inodes, p) ==>
          var es := Entries(v, p); var k := FreeSlot(es);
          && 2 <= k < MAX_DIR_ENTRIES && !Used(es[14])
          && ReadsBackAs(es[k := Entry(StrCpy(es[k].name, name), n, 1)], DecodeDir(ReadOf(e, v.inodes[p].blocks[0]))))
  }

  function ReadOf(e: Disk, b: U32): Sector { if b == 0 || b >= MAX_BLOCKS then ZeroSector() else e[DATA_START_SECTOR + b] }

  lemma LandsIs(v: Volume, p: U32)
    requires Inv(v) && LiveDir(v.inodes, p)
    ensures Lands(v, p) <==> OpenDir(v.inodes, p) && FreeSlot(Entries(v, p)) < 14
  {
    hide DecodeDir, FreeSlot;
    assert NodeOk(v.inodes, p);
  }

  /** The entry is on disk but the inode is free or elsewhere. */
  lemma HalfDangling(v: Volume, p: U32, name: Str, n: U32, m: Inode, e: Disk)
    requires |name| < MAX_FILENAME && Inv(v) && HalfListed(v, p, name, n, e) && Lands(v, p) && (m.kind == FREE || m.parent != p)
    ensures !Inv(Half(v, n, m, e))
  {
    hide DecodeDir, FreeSlot, StrCpy;
    var h := Half(v, n, m, e);
    LandsIs(v, p);
    var k := FreeSlot(Entries(v, p));
    assert Entries(h, p)[k].inode == n && Used(Entries(h, p)[k]);
    assert !EntryOk(h.inodes, p, Entries(h, p)[k]);
    assert OpenDir(h.inodes, p);
  }

  /** The inode holds a block that is not marked. */
  lemma HalfUnmarked(v: Volume, n: U32, m: Inode, e: Disk, q: nat)
    requires n < MAX_INODES && m.kind != FREE && q < DIRECT_BLOCKS && 0 < m.blocks[q] < MAX_BLOCKS && !v.bitmap[m.blocks[q]]
    ensures !Inv(Half(v, n, m, e))
  {
    assert Holds(Half(v, n, m, e).inodes, n, q, m.blocks[q]);
  }

  /** The parent of the inode is no directory, or the inode itself. */
  lemma HalfMisplaced(v: Volume, n: U32, m: Inode, e: Disk)
    requires Inv(v) && n < MAX_INODES && v.inodes[n].kind == FREE && m.kind != FREE && !LiveDir(v.inodes, m.parent)
    ensures !Inv(Half(v, n, m, e))
  {
    hide DecodeDir;
    var t' := Half(v, n, m, e).inodes;
    if LiveDir(t', m.parent) {
      assert m.parent == n && n != 0;
      forall depth
        ensures !DepthOk(t', depth)
      {
        assert DepthOk(t', depth) ==> ParentHigher(t', depth, n);
      }
    } else {
      assert !NodeOk(t', n);
    }
  }

  /** The inode is not there and no entry names it. */
  lemma HalfAbsent(v: Volume, p: U32, name: Str, n: U32, m: Inode, e: Disk)
    requires |name| < MAX_FILENAME && Inv(v) && HalfListed(v, p, name, n, e) && m.kind == FREE && !Lands(v, p)
    ensures Inv(Half(v, n, m, e))
  {
    hide DecodeDir, FreeSlot, StrCpy;
    var h := Half(v, n, m, e);
    var t, t' := v.inodes, h.inodes;
    LandsIs(v, p);
    forall i | 0 <= i < MAX_INODES
      ensures NodeOk(t', i)
    {
      assert NodeOk(t, i);
    }
    assert forall i, j, b :: Holds(t', i, j, b) <==> Holds(t, i, j, b);
    HoldingsFrame(t, t', v.bitmap);
    SameDepths(t, t');
    forall d: U32 | OpenDir(t', d)
      ensures DirOk(t', d, Entries(h, d))
    {
      HalfDirOk(v, p, name, n, m, e, d);
    }
  }

  ghost predicate HalfDirSound(v: Volume, n: U32, m: Inode, e: Disk, d: U32)
    requires n < MAX_INODES && d < MAX_INODES
  {
    DirOk(v.inodes[n := m], d, Entries(Half(v, n, m, e), d))
  }

  /** A directory that does not list the new inode is as it was. */
  lemma HalfDirOk(v: Volume, p: U32, name: Str, n: U32, m: Inode, e: Disk, d: U32)
    requires d < MAX_INODES && n < MAX_INODES && |name| < MAX_FILENAME && Inv(v) && HalfListed(v, p, name, n, e)
    requires OpenDir(v.inodes, d) && (d == p ==> !Lands(v, p))
    ensures HalfDirSound(v, n, m, e, d)
  {
    hide DecodeDir, FreeSlot, StrCpy;
    var h, es := Half(v, n, m, e), Entries(v, d);
    LandsIs(v, p);
    assert d != n;
    assert DirOk(v.inodes, d, es);
    if d == p {
      assert forall i | 0 <= i < 14 :: Entries(h, p)[i] == es[i];
    }
    assert forall i | Live(v.inodes, i) :: SamePlace(v.inodes, h.inodes, i);
    StillOk(v.inodes, d, es, Entries(h, d));
    DirOkFrame(v.inodes, h.inodes, d, Entries(h, d));
  }

  lemma StillOk(t: InodeTable, d: nat, es: DirBlock, r: DirBlock)
    requires d < MAX_INODES && DirOk(t, d, es) && (forall i | 0 <= i < 14 :: r[i] == es[i]) && (!Used(r[14]) || r == es)
    ensures DirOk(t, d, r)
  {
    forall i | 2 <= i < MAX_DIR_ENTRIES
      ensures EntryOk(t, d, r[i])
    {
      assert EntryOk(t, d, es[i]);
    }
  }

  /** The inode is there, without blocks, and in its place. */
  lemma HalfPresent(v: Volume, p: U32, name: Str, n: U32, m: Inode, e: Disk)
    requires |name| < MAX_FILENAME && Inv(v) && HalfListed(v, p, name, n, e) && (m.kind == FILE || m.kind == DIR) && m.blocks == NoBlocks()
    requires if Lands(v, p) then m.parent == p else LiveDir(v.inodes, m.parent)
    ensures Inv(Half(v, n, m, e))
  {
    hide DecodeDir, FreeSlot, StrCpy;
    var h := Half(v, n, m, e);
    var t, t' := v.inodes, h.inodes;
    LandsIs(v, p);
    NewNodeOk(t, n, m.kind, m.size, m.parent);
    assert t' == t[n := Inode(m.kind, m.size, NoBlocks(), m.parent)];
    HoldingsFrame(t, t', v.bitmap);
    forall d: U32 | OpenDir(t', d)
      ensures DirOk(t', d, Entries(h, d))
    {
      assert d != n && OpenDir(t, d);
      if d == p && Lands(v, p) {
        assert DirOk(t, p, Entries(v, p));
        HalfParentOk(t, p, Entries(v, p), name, n, m, Entries(h, p));
      } else {
        HalfDirOk(v, p, name, n, m, e, d);
      }
    }
  }

  /** The directory that lists the inode, with the entry. */
  lemma HalfParentOk(t: InodeTable, p: nat, es: DirBlock, name: Str, n: U32, m: Inode, r: DirBlock)
    requires p < MAX_INODES && 0 < n < MAX_INODES && |name| < MAX_FILENAME && p != n && t[n].kind == FREE && m.kind != FREE && m.parent == p
    requires DirOk(t, p, es) && 2 <= FreeSlot(es) < MAX_DIR_ENTRIES
    requires var k := FreeSlot(es); ReadsBackAs(es[k := Entry(StrCpy(es[k].name, name), n, 1)], r)
    ensures DirOk(t[n := m], p, r)
  {
    hide FreeSlot, StrCpy, CStr;
    var t' := t[n := m];
    assert forall i | 2 <= i < MAX_DIR_ENTRIES :: EntryOk(t, p, es[i]);
    assert forall i | Live(t, i) :: SamePlace(t, t', i);
    DirOkFrame(t, t', p, es);
    InsertedOk(t', p, es, FreeSlot(es), Entry(StrCpy(es[FreeSlot(es)].name, name), n, 1), r);
  }

  // ---------------------------------------------------------------- any cut

  lemma ListedHalf(v: Volume, u: Volume, p: U32, name: Str, n: U32, e: Disk)
    requires Inv(v) && Inv(u) && Grown(v, u, n) && Orphan(u, n) && LiveDir(v.inodes, p) && u.inodes[n].parent == p && |name| < MAX_FILENAME
    requires forall s | DATA_START_SECTOR <= s < DISK_SECTORS :: e[s] == AddEntry(u, p, name, n).0.disk[s]
    ensures HalfListed(v, p, name, n, e)
  {
    hide DecodeDir, EncodeDir, AddEntry, FreeSlot, StrCpy, CStr, Inv, Grown, ReadsBackAs;
    forall d: U32 | OpenDir(v.inodes, d)
      ensures DecodeDir(ReadOf(e, v.inodes[d].blocks[0])) == Entries(AddEntry(u, p, name, n).0, d)
      ensures d != p ==> Entries(AddEntry(u, p, name, n).0, d) == Entries(v, d)
    {
      HalfEntries(v, u, p, name, n, e, d);
    }
    assert v.inodes[n].kind == FREE && n < MAX_INODES by { GrownFree(v, u, n); }
    if OpenDir(v.inodes, p) {
      HalfParent(v, u, p, name, n);
    }
  }

  lemma GrownFree(v: Volume, u: Volume, n: U32)
    requires Grown(v, u, n)
    ensures n < MAX_INODES && v.inodes[n].kind == FREE
  {
  }

  /** A directory as `e` shows it. */
  lemma HalfEntries(v: Volume, u: Volume, p: U32, name: Str, n: U32, e: Disk, d: U32)
    requires Inv(v) && Inv(u) && Grown(v, u, n) && Orphan(u, n) && LiveDir(v.inodes, p) && u.inodes[n].parent == p && |name| < MAX_FILENAME
    requires forall s | DATA_START_SECTOR <= s < DISK_SECTORS :: e[s] == AddEntry(u, p, name, n).0.disk[s]
    requires OpenDir(v.inodes, d)
    ensures var x := AddEntry(u, p, name, n).0;
      DecodeDir(ReadOf(e, v.inodes[d].blocks[0])) == Entries(x, d) && (d != p ==> Entries(x, d) == Entries(v, d))
  {
    hide DecodeDir, EncodeDir, AddEntry, FreeSlot, FindSlot, StrCpy, CStr;
    var x := AddEntry(u, p, name, n).0;
    AddEntryEffect(u, p, name, n);
    GrownKept(v, u, n);
    assert NodeOk(v.inodes, d);
    assert Kept(v, u, d);
    KeptEntries(v, u, d);
    if d != p {
      KeptEntries(u, x, d);
    }
  }

  /** The directory that lists the new inode. */
  lemma HalfParent(v: Volume, u: Volume, p: U32, name: Str, n: U32)
    requires Inv(v) && Inv(u) && Grown(v, u, n) && Orphan(u, n) && OpenDir(v.inodes, p) && u.inodes[n].parent == p && |name| < MAX_FILENAME
    ensures var es := Entries(v, p); var k := FreeSlot(es);
      && 2 <= k < MAX_DIR_ENTRIES && !Used(es[14])
      && ReadsBackAs(es[k := Entry(StrCpy(es[k].name, name), n, 1)], Entries(AddEntry(u, p, name, n).0, p))
  {
    hide DecodeDir, EncodeDir, AddEntry, FreeSlot, FindSlot, StrCpy, CStr, ReadsBackAs;
    AddEntryEffect(u, p, name, n);
    GrownKept(v, u, n);
    SameRoom(v, u, p, name);
    LastEntryUnused(ReadBlock(v, FirstBlock(v, p)));
    assert NodeOk(v.inodes, p);
    assert DirOk(v.inodes, p, Entries(v, p));
    assert Used(Entries(v, p)[0]) && Used(Entries(v, p)[1]);
  }

  /** The node that a reload finds in place of the new inode. */
  function CutOf(v: Volume, n: U32, node: Inode, j: nat): Inode
    requires n < MAX_INODES
  {
    CutNode(LoadInode(v.disk, n), node, n, j)
  }

  lemma CutReload(v: Volume, u: Volume, n: U32, x: Disk, e: Disk, j: nat)
    requires Synced(v) && n < MAX_INODES && u.inodes == v.inodes[n := u.inodes[n]]
    requires forall s | 0 <= s < DATA_START_SECTOR :: x[s] == v.disk[s]
    requires CutDisk(x, e, u.inodes, v.bitmap, u.bitmap, j, false)
    ensures var r, h := Reload(e), Half(v, n, CutOf(v, n, u.inodes[n], j), e);
      r.disk == e && r.bitmap == v.bitmap && r.sb.rootInode == v.sb.rootInode && SameNodes(h.inodes, r.inodes)
      && r.inodes[n] == h.inodes[n]
  {
    hide StoredByte, InodeByte, LoadInode, LoadBitmap, LoadSuper, BitmapSector, PartSynced, TableSector, CutNode;
    var r, h := Reload(e), Half(v, n, CutOf(v, n, u.inodes[n], j), e);
    TableStoredFrame(v.disk, x, v.inodes);
    forall i | 0 <= i < MAX_INODES
      ensures SameNode(h.inodes[i], r.inodes[i]) && (i == n ==> r.inodes[n] == h.inodes[n])
    {
      if i == n {
        LoadCut(x, e, u.inodes, j, n);
        LoadFrame(v.disk, x, n);
      } else {
        MixedOther(x, e, v.inodes, u.inodes, j, i);
        LoadRow(e, v.inodes[i], i);
      }
    }
    BitmapRoundTrip(e, v.bitmap);
    SuperOfSector(v.disk, e);
  }

  lemma LoadFrame(d: Disk, e: Disk, n: nat)
    requires n < MAX_INODES && forall s | 0 <= s < DATA_START_SECTOR :: e[s] == d[s]
    ensures LoadInode(e, n) == LoadInode(d, n)
  {
    hide StoredByte, DecodeInode;
    forall o | 0 <= o < INODE_SIZE
      ensures StoredByte(e, n, o) == StoredByte(d, n, o)
    {
      StoredByteFrame(d, e, n, o);
    }
    assert StoredRecord(e, n) == StoredRecord(d, n);
  }

  /** With the directory written, and `j` sectors of the table, but not the bitmap: sound exactly when `SafeCut` says. */
  lemma CutListing(v: Volume, u: Volume, p: U32, name: Str, n: U32, e: Disk, j: nat)
    requires Inv(v) && Synced(v) && Clean(v) && Inv(u) && Grown(v, u, n) && Orphan(u, n)
    requires LiveDir(v.inodes, p) && u.inodes[n].parent == p && |name| < MAX_FILENAME && u.inodes[n].kind <= DIR
    requires CutDisk(AddEntry(u, p, name, n).0.disk, e, u.inodes, v.bitmap, u.bitmap, j, false)
    ensures Inv(Reload(e)) <==> SafeCut(v, p, n, u.inodes[n], j)
  {
    hide DecodeDir, EncodeDir, AddEntry, FreeSlot, Reload, CutDisk, Inv, HalfListed, Tidy, LoadInode, BlankStored, Lands, CutNode, TableStored,
      BitmapSector, SafeNode, Orphan;
    var x := AddEntry(u, p, name, n).0;
    var r, m := Reload(e), CutOf(v, n, u.inodes[n], j);
    ListedMetadata(v, u, p, name, n);
    CutData(x.disk, e, u.inodes, v.bitmap, u.bitmap, j, false);
    CutReload(v, u, n, x.disk, e, j);
    SameNodesEither(Half(v, n, m, e), r);
    ListedHalf(v, u, p, name, n, e);
    StoredFree(v.disk, v.inodes, n);
    CutSound(v, u, p, name, n, LoadInode(v.disk, n), e, j);
  }

  lemma CutData(x: Disk, e: Disk, t': InodeTable, bm: Bitmap, bm': Bitmap, j: nat, finished: bool)
    requires CutDisk(x, e, t', bm, bm', j, finished)
    ensures forall s | DATA_START_SECTOR <= s < DISK_SECTORS :: e[s] == x[s]
  {
    hide PartSynced, BitmapSector;
  }

  lemma ListedMetadata(v: Volume, u: Volume, p: U32, name: Str, n: U32)
    requires Inv(v) && Inv(u) && Grown(v, u, n) && Orphan(u, n) && LiveDir(v.inodes, p) && u.inodes[n].parent == p && |name| < MAX_FILENAME
    ensures forall s | 0 <= s < DATA_START_SECTOR :: AddEntry(u, p, name, n).0.disk[s] == v.disk[s]
  {
    hide DecodeDir, EncodeDir, AddEntry, FreeSlot;
    AddEntryEffect(u, p, name, n);
    NoMetadataBlocks(v, u, n);
  }

  lemma SameNodesEither(h: Volume, r: Volume)
    requires SameNodes(h.inodes, r.inodes) && r.bitmap == h.bitmap && r.disk == h.disk && r.sb.rootInode == h.sb.rootInode
    ensures Inv(r) <==> Inv(h)
  {
    hide Inv;
    if Inv(h) {
      SameNodesInv(h, r);
    }
    if Inv(r) {
      SameNodesInv(r, h);
    }
  }

  lemma CutSound(v: Volume, u: Volume, p: U32, name: Str, n: U32, was: Inode, e: Disk, j: nat)
    requires |name| < MAX_FILENAME && Inv(v) && Inv(u) && Grown(v, u, n) && Orphan(u, n)
    requires u.inodes[n].kind <= DIR && HalfListed(v, p, name, n, e) && was.kind == FREE && was.blocks == NoBlocks()
    ensures Inv(Half(v, n, CutNode(was, u.inodes[n], n, j), e)) <==> SafeNode(v, p, CutNode(was, u.inodes[n], n, j))
  {
    hide DecodeDir, FreeSlot, Inv, HalfListed, Lands, CutNode, Half;
    var m := CutNode(was, u.inodes[n], n, j);
    CutKind(was, u.inodes[n], n, j);
    if m.kind == FREE {
      if Lands(v, p) {
        HalfDangling(v, p, name, n, m, e);
      } else {
        HalfAbsent(v, p, name, n, m, e);
      }
    } else if m.blocks != NoBlocks() {
      var q :| 0 <= q < DIRECT_BLOCKS && m.blocks[q] != 0;
      CutHolds(v, u, n, was, j, q);
      HalfUnmarked(v, n, m, e, q);
    } else if Lands(v, p) && m.parent != p {
      HalfDangling(v, p, name, n, m, e);
    } else if !Lands(v, p) && !LiveDir(v.inodes, m.parent) {
      HalfMisplaced(v, n, m, e);
    } else {
      HalfPresent(v, p, name, n, m, e);
    }
  }

  lemma CutKind(was: Inode, now: Inode, n: nat, j: nat)
    requires was.kind == FREE && now.kind <= DIR
    ensures CutNode(was, now, n, j).kind == FREE || CutNode(was, now, n, j).kind == FILE || CutNode(was, now, n, j).kind == DIR
  {
  }

  lemma CutHolds(v: Volume, u: Volume, n: U32, was: Inode, j: nat, q: nat)
    requires Inv(u) && Grown(v, u, n) && Live(u.inodes, n) && q < DIRECT_BLOCKS
    requires was.blocks == NoBlocks() && CutNode(was, u.inodes[n], n, j).blocks[q] != 0
    ensures var b := CutNode(was, u.inodes[n], n, j).blocks[q]; b == u.inodes[n].blocks[q] && b < MAX_BLOCKS && !v.bitmap[b]
  {
    hide DecodeDir, Inv;
    LiveBlock(u, n, q);
    assert CutNode(was, u.inodes[n], n, j).blocks[q] == CutBlock(was, u.inodes[n], n, j, q);
    assert u.inodes[n].blocks[q] in u.inodes[n].blocks;
  }

  lemma LiveBlock(u: Volume, n: U32, q: nat)
    requires Inv(u) && Live(u.inodes, n) && q < DIRECT_BLOCKS
    ensures u.inodes[n].blocks[q] < MAX_BLOCKS
  {
    assert NodeOk(u.inodes, n);
  }

  /** Whatever the cut, every path and file of `v` is there, unless the entry hides an older one of its name. */
  lemma CutListingExtends(v: Volume, u: Volume, p: U32, name: Str, n: U32, e: Disk, j: nat)
    requires Inv(v) && Synced(v) && Inv(u) && Grown(v, u, n) && Orphan(u, n) && !Shadows(v, p, name)
    requires LiveDir(v.inodes, p) && u.inodes[n].parent == p && |name| < MAX_FILENAME
    requires CutDisk(AddEntry(u, p, name, n).0.disk, e, u.inodes, v.bitmap, u.bitmap, j, false)
    ensures Extends(v, Reload(e), {})
  {
    hide DecodeDir, EncodeDir, AddEntry, FreeSlot, Reload, CutDisk, Extends, Roomy, LoadInode, CutNode, TableStored, BitmapSector, Synced, Inv;
    var x, r := AddEntry(u, p, name, n).0, Reload(e);
    ListedMetadata(v, u, p, name, n);
    CutData(x.disk, e, u.inodes, v.bitmap, u.bitmap, j, false);
    CutReload(v, u, n, x.disk, e, j);
    AddedExtends(v, u, p, name, n);
    forall i | Live(v.inodes, i)
      ensures r.inodes[i] == v.inodes[i]
    {
      assert SameNode(Half(v, n, CutOf(v, n, u.inodes[n], j), e).inodes[i], r.inodes[i]);
    }
    ExtendsCopy(v, x, r);
  }

  lemma AddedExtends(v: Volume, u: Volume, p: U32, name: Str, n: U32)
    requires Inv(v) && Inv(u) && Grown(v, u, n) && Orphan(u, n) && !Shadows(v, p, name)
    requires LiveDir(v.inodes, p) && u.inodes[n].parent == p && |name| < MAX_FILENAME
    ensures var x := AddEntry(u, p, name, n).0;
      Extends(v, x, {}) && x == u.(disk := x.disk) && forall i | Live(v.inodes, i) :: x.inodes[i] == v.inodes[i]
  {
    hide DecodeDir, EncodeDir, AddEntry, FreeSlot, Extends, Roomy;
    GrownKept(v, u, n);
    SameRoom(v, u, p, name);
    AddEntryExtends(u, p, name, n);
    AddEntryEffect(u, p, name, n);
    ExtendsThen(v, u, AddEntry(u, p, name, n).0, {});
  }

  lemma ExtendsCopy(v: Volume, x: Volume, r: Volume)
    requires Extends(v, x, {}) && r.sb.rootInode == x.sb.rootInode
    requires forall i | Live(v.inodes, i) :: r.inodes[i] == v.inodes[i] == x.inodes[i]
    requires forall s | DATA_START_SECTOR <= s < DISK_SECTORS :: r.disk[s] == x.disk[s]
    ensures Extends(v, r, {})
  {
    hide DecodeDir;
    forall i | Live(v.inodes, i)
      ensures NodeKept(v, r, i)
    {
      assert NodeKept(v, x, i) && Kept(x, r, i);
    }
    forall i: U32, nm | LiveDir(v.inodes, i)
      ensures StepKept(v, r, i, nm, {})
    {
      assert StepKept(v, x, i, nm, {}) && Kept(x, r, i);
      KeptEntries(x, r, i);
    }
  }

  // ---------------------------------------------------------------- blocks that nobody owns yet

  /** Disk `e` differs from `d` in data blocks that are clear in `bm`, at most. */
  ghost predicate OffMarked(bm: Bitmap, d: Disk, e: Disk) {
    forall s | 0 <= s < DISK_SECTORS && (s <= DATA_START_SECTOR || bm[s - DATA_START_SECTOR]) :: e[s] == d[s]
  }

  /** Writing them is harmless at any moment. */
  lemma DataCut(v: Volume, e: Disk)
    requires Inv(v) && Synced(v) && OffMarked(v.bitmap, v.disk, e)
    ensures Inv(Reload(e)) && Extends(v, Reload(e), {})
  {
    hide DecodeDir, Reload, TableStored, BitmapSector, LoadSuper, Extends;
    var w := v.(disk := e);
    forall i | Live(v.inodes, i)
      ensures Kept(v, w, i)
    {
      forall j | 0 <= j < DIRECT_BLOCKS
        ensures ReadBlock(w, v.inodes[i].blocks[j]) == ReadBlock(v, v.inodes[i].blocks[j])
      {
        assert NodeOk(v.inodes, i);
        assert Holds(v.inodes, i, j, v.inodes[i].blocks[j]);
      }
    }
    AllKeptExtends(v, w);
    forall d: U32 | OpenDir(v.inodes, d)
      ensures Entries(w, d) == Entries(v, d)
    {
      KeptEntries(v, w, d);
    }
    SyncedFrame(v, w);
    RebootKeeps(w);
    RebootExtends(w);
    ExtendsThen(v, w, Reload(e), {});
  }

  // ---------------------------------------------------------------- any prefix of the writes

  /** Whether the first `k` writes of the listing leave a sound disk. */
  ghost predicate ListCutSafe(v: Volume, p: U32, n: U32, node: Inode, k: nat)
    requires n < MAX_INODES
  {
    var a := if Searchable(v, p) then 1 else 0;
    k < a || k - a > TABLE_SECTORS || SafeCut(v, p, n, node, k - a)
  }

  lemma ListCut(v: Volume, u: Volume, p: U32, name: Str, n: U32, k: nat)
    requires Inv(v) && Synced(v) && Clean(v) && Inv(u) && Grown(v, u, n) && Orphan(u, n) && Steady(v, u) && OffMarked(v.bitmap, v.disk, u.disk)
    requires LiveDir(v.inodes, p) && u.inodes[n].parent == p && |name| < MAX_FILENAME && u.inodes[n].kind <= DIR
    requires k <= |ListWrites(u, p, name, n)|
    ensures var r := Reload(Apply(u.disk, ListWrites(u, p, name, n)[..k]));
      (Inv(r) <==> ListCutSafe(v, p, n, u.inodes[n], k)) && (!Shadows(v, p, name) ==> Extends(v, r, {}))
  {
    hide DecodeDir, AddEntry, Reload, CutDisk, Inv, Apply, NodeWrites, SafeCut, ListWrites, Roomy, SyncNodes, Upkept, Extends, Synced, Clean,
      Orphan, Grown, Steady;
    var x, ws := AddEntry(u, p, name, n).0, ListWrites(u, p, name, n);
    var a := if Searchable(v, p) then 1 else 0;
    var e := Apply(u.disk, ws[..k]);
    ListStart(v, u, p, name, n, k);
    if k < a {
      DataCut(v, e);
    } else {
      NodeWritesLength(u.inodes, u.bitmap);
      StoredBitmap(v, u, p, name, n);
      CutWrites(x.disk, u.inodes, v.bitmap, u.bitmap, k - a);
      if k - a <= TABLE_SECTORS {
        CutListing(v, u, p, name, n, e, k - a);
        if !Shadows(v, p, name) {
          CutListingExtends(v, u, p, name, n, e, k - a);
        }
      } else {
        ListedWhole(v, u, p, name, n);
      }
    }
  }

  lemma StoredBitmap(v: Volume, u: Volume, p: U32, name: Str, n: U32)
    requires Inv(v) && Synced(v) && Inv(u) && Grown(v, u, n) && Orphan(u, n) && LiveDir(v.inodes, p) && u.inodes[n].parent == p && |name| < MAX_FILENAME
    ensures AddEntry(u, p, name, n).0.disk[BLOCK_BITMAP_SECTOR] == BitmapSector(v.bitmap)
  {
    hide DecodeDir, EncodeDir, AddEntry, BitmapSector;
    ListedMetadata(v, u, p, name, n);
  }

  /** The list of writes is the directory write, if the directory has a block, and then the nodes. */
  lemma ListStart(v: Volume, u: Volume, p: U32, name: Str, n: U32, k: nat)
    requires Inv(v) && Inv(u) && Grown(v, u, n) && Orphan(u, n) && LiveDir(v.inodes, p) && u.inodes[n].parent == p && |name| < MAX_FILENAME
    requires k <= |ListWrites(u, p, name, n)|
    ensures var x, ws, nodes := AddEntry(u, p, name, n).0, ListWrites(u, p, name, n), NodeWrites(u.inodes, u.bitmap);
      var a := if Searchable(v, p) then 1 else 0;
      && |ws| == a + |nodes|
      && (k < a ==> Apply(u.disk, ws[..k]) == u.disk)
      && (k >= a ==> Apply(u.disk, ws[..k]) == Apply(x.disk, nodes[..k - a]))
  {
    hide DecodeDir, EncodeDir, FreeSlot, Apply, NodeWrites, StrCpy;
    var x, ws, nodes := AddEntry(u, p, name, n).0, ListWrites(u, p, name, n), NodeWrites(u.inodes, u.bitmap);
    var b := FirstBlock(u, p);
    assert NodeOk(v.inodes, p) && b == FirstBlock(v, p);
    AddEntryKeeps(u, p, name, n);
    if Searchable(v, p) {
      var w := SectorWrite(DATA_START_SECTOR + b, ReadBlock(x, b));
      assert ws == [w] + nodes;
      assert x.disk == u.disk[w.sector := w.data];
      if k > 0 {
        AfterFirst(u.disk, w, nodes, k);
      } else {
        assert ws[..0] == [];
        ApplyNone(u.disk);
      }
    } else {
      assert ws == nodes && x == u;
    }
  }

  /** All of it written: the finished operation, reloaded. */
  lemma ListedWhole(v: Volume, u: Volume, p: U32, name: Str, n: U32)
    requires Inv(v) && Synced(v) && Inv(u) && Grown(v, u, n) && Orphan(u, n) && Steady(v, u)
    requires LiveDir(v.inodes, p) && u.inodes[n].parent == p && |name| < MAX_FILENAME
    ensures var x := AddEntry(u, p, name, n).0; var nodes := NodeWrites(u.inodes, u.bitmap);
      var r := Reload(Apply(x.disk, nodes[..TABLE_SECTORS + 1]));
      && |nodes| == TABLE_SECTORS + 1 && Apply(x.disk, nodes) == SyncNodes(x).disk
      && Inv(r) && (!Shadows(v, p, name) ==> Extends(v, r, {}))
  {
    hide DecodeDir, EncodeDir, AddEntry, Reload, Apply, NodeWrites, StoreNodes, Upkept, Extends, Roomy, Inv, Grown;
    var x, nodes := AddEntry(u, p, name, n).0, NodeWrites(u.inodes, u.bitmap);
    var w := SyncNodes(x);
    NodeWritesLength(u.inodes, u.bitmap);
    assert nodes[..TABLE_SECTORS + 1] == nodes;
    ListedDisk(v, u, p, name, n);
    ApplyNodes(x.disk, u.inodes, u.bitmap);
    ListedKeeps(v, u, p, name, n);
    UpkeptInv(v, w);
    RebootKeeps(w);
    RebootExtends(w);
    if !Shadows(v, p, name) {
      ExtendsThen(v, w, Reload(w.disk), {});
    }
  }

  // ---------------------------------------------------------------- the same in numbers

  lemma ReachedInOrder(n: nat, o: nat, o': nat, j: nat)
    requires o <= o' && Reached(n, o', j)
    ensures Reached(n, o, j)
  {
  }

  /** The only inodes whose type byte and first block lie in different sectors. */
  lemma Corner(n: nat, j: nat)
    requires n < MAX_INODES
    ensures Reached(n, 0, j) && !Reached(n, 8, j) <==> (n == 17 || n == 34 || n == 145 || n == 162) && j == INODE_SIZE * n / BLOCK_SIZE + 1
  {
    var q, r := 15 * n / 128, 15 * n % 128;
    assert INODE_SIZE * n / BLOCK_SIZE == q && (INODE_SIZE * n + 8) / BLOCK_SIZE == (15 * n + 2) / 128;
    assert (15 * n + 2) / 128 == if r >= 126 then q + 1 else q;
    CornerNumbers(n, q, r);
  }

  lemma CornerNumbers(n: nat, q: nat, r: nat)
    requires n < MAX_INODES && 15 * n == 128 * q + r && r < 128
    ensures r >= 126 <==> n == 17 || n == 34 || n == 145 || n == 162
  {
    assert q < 24;
  }

  /** What a free inode looks like on a clean disk. */
  lemma StoredFree(d: Disk, t: InodeTable, n: nat)
    requires n < MAX_INODES && t[n].kind == FREE && TableStored(d, t) && BlankStored(d, t)
    ensures LoadInode(d, n).kind == FREE && LoadInode(d, n).blocks == NoBlocks()
  {
    hide StoredByte, InodeByte, LoadInode;
    assert RowStored(d, t[n], n);
    LoadRow(d, t[n], n);
    BlankLoads(d, n);
  }

  /** A directory, or a file that has a block, once its entry is on disk, in the place of a blank free inode `was`: no cut
      before the bitmap is safe, but for one at an inode that straddles two sectors before its first block and was last
      freed in the same directory. */
  lemma HolderCut(v: Volume, p: U32, n: U32, was: Inode, node: Inode, j: nat)
    requires n < MAX_INODES && was.kind == FREE && was.blocks == NoBlocks() && node.kind != FREE && node.blocks[0] != 0 && Lands(v, p)
    ensures SafeNode(v, p, CutNode(was, node, n, j)) <==>
      (n == 17 || n == 34 || n == 145 || n == 162) && j == INODE_SIZE * n / BLOCK_SIZE + 1 && was.parent == p
  {
    hide Lands, Reached;
    Corner(n, j);
    var m := CutNode(was, node, n, j);
    if Reached(n, 8, j) {
      ReachedInOrder(n, 0, 8, j);
      assert m.blocks[0] == CutBlock(was, node, n, j, 0);
      assert m.blocks[0] != NoBlocks()[0];
    } else {
      NotReached(was, node, n, j);
    }
  }

  lemma NotReached(was: Inode, node: Inode, n: nat, j: nat)
    requires n < MAX_INODES && !Reached(n, 8, j)
    ensures CutNode(was, node, n, j).blocks == was.blocks && CutNode(was, node, n, j).parent == was.parent
  {
    hide Reached;
    forall q | 0 <= q < DIRECT_BLOCKS
      ensures CutBlock(was, node, n, j, q) == was.blocks[q]
    {
      if Reached(n, 8 + 4 * q, j) {
        ReachedInOrder(n, 8, 8 + 4 * q, j);
      }
    }
    if Reached(n, 56, j) {
      ReachedInOrder(n, 8, 56, j);
    }
  }

  /** An empty file needs no bitmap: it is safe as soon as its record is there. */
  lemma EmptyCut(v: Volume, p: U32, n: U32, was: Inode, node: Inode, j: nat)
    requires n < MAX_INODES && was.kind == FREE && was.blocks == NoBlocks() && node.kind != FREE && node.blocks == NoBlocks()
    requires node.parent == p && Lands(v, p)
    ensures SafeNode(v, p, CutNode(was, node, n, j)) <==> Reached(n, 0, j) && (Reached(n, 56, j) || was.parent == p)
  {
    hide Lands, Reached;
    var m := CutNode(was, node, n, j);
    assert forall q | 0 <= q < DIRECT_BLOCKS :: CutBlock(was, node, n, j, q) == 0;
    assert m.blocks == NoBlocks();
    if Reached(n, 56, j) {
      ReachedInOrder(n, 0, 56, j);
    }
  }

  /** An entry that is lost leaves no dangling name, but a block that is not marked. */
  lemma LostCut(v: Volume, p: U32, n: U32, was: Inode, node: Inode, j: nat)
    requires n < MAX_INODES && was.kind == FREE && was.blocks == NoBlocks() && node.kind != FREE && node.blocks[0] != 0 && !Lands(v, p)
    ensures SafeNode(v, p, CutNode(was, node, n, j)) <==> !Reached(n, 0, j) || (!Reached(n, 8, j) && LiveDir(v.inodes, was.parent))
  {
    hide Lands, Reached;
    var m := CutNode(was, node, n, j);
    if Reached(n, 8, j) {
      ReachedInOrder(n, 0, 8, j);
      assert m.blocks[0] == CutBlock(was, node, n, j, 0);
      assert m.blocks[0] != NoBlocks()[0];
    } else {
      NotReached(was, node, n, j);
    }
  }
}
