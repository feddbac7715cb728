/** Operations as lists of sector writes, and the disk after part of such a list. */
module Writes {
  import opened Bytes
  import opened Layout
  import opened Paths
  import opened Volumes
  import opened Persistence

  /** One atomic `disk_write_sectors` of a single sector. */
  datatype SectorWrite = SectorWrite(sector: nat, data: Sector)

  /** The disk after the writes of `ws`, in order. */
  function Apply(d: Disk, ws: seq<SectorWrite>): Disk {
    if ws == [] then d
    else
      var e := Apply(d, ws[..|ws| - 1]);
      var w := Last(ws);
      if w.sector < DISK_SECTORS then e[w.sector := w.data] else e
  }

  function TableWrite(t: InodeTable, k: nat): SectorWrite { SectorWrite(INODE_TABLE_SECTOR + k, TableSector(t, k)) }

  /** The writes of `sync_inode_table`. */
  function TableWrites(t: InodeTable): seq<SectorWrite> {
    seq<SectorWrite>(TABLE_SECTORS, k requires 0 <= k < TABLE_SECTORS => TableWrite(t, k))
  }

  function BlockWrites(b: U32, s: Sector): seq<SectorWrite> {
    if b == 0 || b >= MAX_BLOCKS then [] else [SectorWrite(DATA_START_SECTOR + b, s)]
  }

  function NodeWrites(t: InodeTable, bm: Bitmap): seq<SectorWrite> {
    TableWrites(t) + [SectorWrite(BLOCK_BITMAP_SECTOR, BitmapSector(bm))]
  }

  lemma ApplyOne(d: Disk, w: SectorWrite)
    requires w.sector < DISK_SECTORS
    ensures Apply(d, [w]) == d[w.sector := w.data]
  {
    assert [w][..0] == [];
    assert Apply(d, []) == d;
  }

  lemma {:induction false} ApplyConcat(d: Disk, ws: seq<SectorWrite>, us: seq<SectorWrite>)
    ensures Apply(d, ws + us) == Apply(Apply(d, ws), us)
  {
    if us == [] {
      assert ws + us == ws;
    } else {
      assert (ws + us)[..|ws + us| - 1] == ws + us[..|us| - 1];
      ApplyConcat(d, ws, us[..|us| - 1]);
    }
  }

  /** A disk on which the first `j` sectors of table `t` have been written over `d`. */
  ghost predicate PartTable(d: Disk, e: Disk, t: InodeTable, j: nat) {
    forall s | 0 <= s < DISK_SECTORS ::
      e[s] == if INODE_TABLE_SECTOR <= s < INODE_TABLE_SECTOR + j then TableSector(t, s - INODE_TABLE_SECTOR) else d[s]
  }

  lemma {:induction false} ApplyTable(d: Disk, t: InodeTable, j: nat)
    requires j <= TABLE_SECTORS
    ensures PartTable(d, Apply(d, TableWrites(t)[..j]), t, j)
  {
    hide TableSector;
    if j == 0 {
      assert TableWrites(t)[..0] == [];
    } else {
      var ws := TableWrites(t)[..j];
      assert ws[..j - 1] == TableWrites(t)[..j - 1] && Last(ws) == TableWrite(t, j - 1);
      ApplyTable(d, t, j - 1);
    }
  }

  lemma ApplyNodes(d: Disk, t: InodeTable, bm: Bitmap)
    ensures Apply(d, NodeWrites(t, bm)) == StoreNodes(d, t, bm)
  {
    hide TableSector, BitmapSector;
    var ws := TableWrites(t);
    ApplyTable(d, t, TABLE_SECTORS);
    assert ws[..TABLE_SECTORS] == ws;
    assert NodeWrites(t, bm)[..TABLE_SECTORS] == ws;
  }

  // ---------------------------------------------------------------- in the middle of a sync

  /** On disk `e` the first `j` sectors of the table are those of `t'`, the others those of `d`. */
  ghost predicate PartSynced(d: Disk, e: Disk, t': InodeTable, j: nat) {
    forall s | INODE_TABLE_SECTOR <= s < INODE_TABLE_SECTOR + TABLE_SECTORS ::
      e[s] == if s < INODE_TABLE_SECTOR + j then TableSector(t', s - INODE_TABLE_SECTOR) else d[s]
  }

  /** The stored record of inode `i` while `t` is being overwritten by `t'` from the front. */
  lemma MixedByte(d: Disk, e: Disk, t': InodeTable, j: nat, i: nat, o: nat)
    requires j <= TABLE_SECTORS && i < MAX_INODES && o < INODE_SIZE
    requires PartSynced(d, e, t', j)
    ensures StoredByte(e, i, o) == if (INODE_SIZE * i + o) / BLOCK_SIZE < j then InodeByte(t'[i], o) else StoredByte(d, i, o)
  {
    hide InodeByte, TableSector;
    var k := (INODE_SIZE * i + o) / BLOCK_SIZE;
    RecordSector(i, o);
    assert e[INODE_TABLE_SECTOR + k] == if k < j then TableSector(t', k) else d[INODE_TABLE_SECTOR + k];
    InTableSector(t', i, o);
  }

  lemma RecordSector(i: nat, o: nat)
    requires i < MAX_INODES && o < INODE_SIZE
    ensures (INODE_SIZE * i + o) / BLOCK_SIZE < TABLE_SECTORS
  {
  }

  /** Where a byte of the table goes. */
  lemma InTableSector(t: InodeTable, i: nat, o: nat)
    requires i < MAX_INODES && o < INODE_SIZE
    ensures var x := INODE_SIZE * i + o; TableSector(t, x / BLOCK_SIZE)[x % BLOCK_SIZE] == InodeByte(t[i], o)
  {
    hide InodeByte;
    var x := INODE_SIZE * i + o;
    var k, q := x / BLOCK_SIZE, x % BLOCK_SIZE;
    RecordAt(i, o);
    assert TableSector(t, k)[q] == TableByte(t, k, q);
  }

  /** A record that the sync does not change is there at every moment. */
  lemma MixedOther(d: Disk, e: Disk, t: InodeTable, t': InodeTable, j: nat, i: nat)
    requires j <= TABLE_SECTORS && i < MAX_INODES && TableStored(d, t) && PartSynced(d, e, t', j) && t'[i] == t[i]
    ensures RowStored(e, t[i], i)
  {
    hide StoredByte, InodeByte, PartSynced;
    forall o | 0 <= o < INODE_SIZE && (o == 0 || t[i].kind != FREE)
      ensures StoredByte(e, i, o) == InodeByte(t[i], o)
    {
      MixedByte(d, e, t', j, i, o);
    }
  }

  /** So is a record of which no sector is written yet. */
  lemma UnwrittenRow(d: Disk, e: Disk, t: InodeTable, t': InodeTable, j: nat, i: nat)
    requires j <= TABLE_SECTORS && i < MAX_INODES && TableStored(d, t) && PartSynced(d, e, t', j) && INODE_SIZE * i / BLOCK_SIZE >= j
    ensures RowStored(e, t[i], i)
  {
    hide StoredByte, InodeByte, PartSynced;
    forall o | 0 <= o < INODE_SIZE && (o == 0 || t[i].kind != FREE)
      ensures StoredByte(e, i, o) == InodeByte(t[i], o)
    {
      MixedByte(d, e, t', j, i, o);
    }
  }

  lemma RowsStored(e: Disk, t: InodeTable)
    requires forall i | 0 <= i < MAX_INODES :: RowStored(e, t[i], i)
    ensures TableStored(e, t)
  {
    hide StoredByte, InodeByte;
    forall i, o | 0 <= i < MAX_INODES && 0 <= o < INODE_SIZE && (o == 0 || t[i].kind != FREE)
      ensures StoredByte(e, i, o) == InodeByte(t[i], o)
    {
      assert RowStored(e, t[i], i);
    }
  }

  lemma LoadedKind(e: Disk, i: nat)
    requires i < MAX_INODES
    ensures LoadTable(e)[i].kind == StoredByte(e, i, 0)
  {
    hide StoredByte;
  }

  /** The state of the disk after `k` writes of a delete whose final nodes are `t'` and `bm'`. */
  ghost predicate CutDisk(x: Disk, e: Disk, t': InodeTable, bm: Bitmap, bm': Bitmap, j: nat, finished: bool) {
    && PartSynced(x, e, t', j)
    && (forall s | DATA_START_SECTOR <= s < DISK_SECTORS :: e[s] == x[s])
    && e[SUPERBLOCK_SECTOR] == x[SUPERBLOCK_SECTOR]
    && e[BLOCK_BITMAP_SECTOR] == (if finished then BitmapSector(bm') else BitmapSector(bm))
    && j <= TABLE_SECTORS && (finished ==> j == TABLE_SECTORS)
  }

  /** `e` is the disk reached by the first `k` writes, the directory write among them. */
  lemma CutWrites(x: Disk, t': InodeTable, bm: Bitmap, bm': Bitmap, k: nat)
    requires k <= TABLE_SECTORS + 1 && x[BLOCK_BITMAP_SECTOR] == BitmapSector(bm)
    ensures CutDisk(x, Apply(x, NodeWrites(t', bm')[..k]), t', bm, bm', if k <= TABLE_SECTORS then k else TABLE_SECTORS, k > TABLE_SECTORS)
  {
    hide TableSector, BitmapSector;
    var ws := NodeWrites(t', bm');
    if k <= TABLE_SECTORS {
      assert ws[..k] == TableWrites(t')[..k];
      ApplyTable(x, t', k);
    } else {
      assert ws[..k] == ws;
      ApplyNodes(x, t', bm');
    }
  }

  lemma AfterFirst(d: Disk, w: SectorWrite, ws: seq<SectorWrite>, k: nat)
    requires w.sector < DISK_SECTORS && 0 < k <= 1 + |ws|
    ensures Apply(d, ([w] + ws)[..k]) == Apply(d[w.sector := w.data], ws[..k - 1])
  {
    assert ([w] + ws)[..k] == [w] + ws[..k - 1];
    ApplyConcat(d, [w], ws[..k - 1]);
    ApplyOne(d, w);
  }

  lemma ApplyNone(d: Disk)
    ensures Apply(d, []) == d
  {
  }

  lemma NodeWritesLength(t: InodeTable, bm: Bitmap)
    ensures |NodeWrites(t, bm)| == TABLE_SECTORS + 1
  {
  }
}
