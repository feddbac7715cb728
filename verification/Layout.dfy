/** On-disk structures of fs/filesystem.h and their byte images. */
module Layout {
  import opened Bytes

  const SUPERBLOCK_SECTOR := 100
  const INODE_TABLE_SECTOR := 101
  const BLOCK_BITMAP_SECTOR := 151
  const DATA_START_SECTOR := 201

  const MAX_INODES := 200
  const MAX_BLOCKS := 512
  const BLOCK_SIZE := 512
  const MAX_FILENAME := 28
  const MAX_FILE_SIZE := 16384
  const DIRECT_BLOCKS := 12
  const MAX_DIR_ENTRIES := 15

  const FREE: Byte := 0
  const FILE: Byte := 1
  const DIR: Byte := 2

  const INODE_SIZE := 60
  const ENTRY_SIZE := 36
  const TABLE_BYTES := 12000
  const TABLE_SECTORS := 24
  const DISK_SECTORS := 713

  type Sector = s: seq<Byte> | |s| == BLOCK_SIZE witness seq(BLOCK_SIZE, _ => 0)
  type Disk = s: seq<Sector> | |s| == DISK_SECTORS witness seq<Sector>(DISK_SECTORS, _ => ZeroSector())
  type BlockList = s: seq<U32> | |s| == DIRECT_BLOCKS witness seq(DIRECT_BLOCKS, _ => 0)
  type RawName = s: seq<Byte> | |s| == MAX_FILENAME witness seq(MAX_FILENAME, _ => 0)
  type TextArea = s: seq<Byte> | |s| == 160 witness seq(160, _ => 0)

  function ZeroSector(): Sector { seq<Byte>(BLOCK_SIZE, k => 0) }
  function NoBlocks(): BlockList { seq<U32>(DIRECT_BLOCKS, k => 0) }
  function ZeroName(): RawName { seq<Byte>(MAX_FILENAME, k => 0) }

  /** `text` is the host name, user name and password hash, not interpreted here. */
  datatype Superblock = Superblock(
    magic: U32, version: U32, totalInodes: U32, totalBlocks: U32,
    freeInodes: U32, freeBlocks: U32, rootInode: U32, installed: U32, text: TextArea)

  datatype Inode = Inode(kind: Byte, size: U32, blocks: BlockList, parent: U32)

  datatype Entry = Entry(name: RawName, inode: U32, inUse: Byte)

  function FreshInode(): Inode { Inode(FREE, 0, NoBlocks(), 0) }
  function NoEntry(): Entry { Entry(ZeroName(), 0, 0) }

  type InodeTable = s: seq<Inode> | |s| == MAX_INODES witness seq(MAX_INODES, _ => FreshInode())
  type Bitmap = s: seq<bool> | |s| == MAX_BLOCKS witness seq(MAX_BLOCKS, _ => false)
  type DirBlock = s: seq<Entry> | |s| == MAX_DIR_ENTRIES witness seq(MAX_DIR_ENTRIES, _ => NoEntry())

  // ---------------------------------------------------------------- C strings in a char[28]

  /** The C string at the start of a buffer: everything before the first NUL. */
  function CStr(buf: seq<Byte>): (s: Str)
    ensures |s| <= |buf| && s == buf[..|s|]
    ensures |s| < |buf| ==> buf[|s|] == 0
  {
    if buf == [] || buf[0] == 0 then [] else
    var rest := CStr(buf[1..]);
    [buf[0] as Char8] + rest
  }

  /** `strcpy` into a name field: the tail of the old contents stays. */
  function StrCpy(buf: RawName, s: Str): (r: RawName)
    requires |s| < MAX_FILENAME
  {
    var bytes: seq<Byte> := s;
    bytes + [0] + buf[|s| + 1..]
  }

  lemma {:induction false} CStrPrefix(buf: seq<Byte>, s: Str)
    requires |s| < |buf| && s == buf[..|s|] && buf[|s|] == 0
    ensures CStr(buf) == s
  {
    if s != [] {
      assert buf[0] == s[0];
      CStrPrefix(buf[1..], s[1..]);
    }
  }

  lemma StrCpyRoundTrip(buf: RawName, s: Str)
    requires |s| < MAX_FILENAME
    ensures CStr(StrCpy(buf, s)) == s && StrCpy(buf, s)[|s| + 1..] == buf[|s| + 1..]
  {
    CStrPrefix(StrCpy(buf, s), s);
  }

  // ---------------------------------------------------------------- directory blocks

  function EntryByte(e: Entry, off: nat): Byte
    requires off < ENTRY_SIZE
  {
    if off < 28 then e.name[off]
    else if off < 32 then LeByte(e.inode, off - 28)
    else if off == 32 then e.inUse
    else 0
  }

  /** The part of a 540-byte directory block that fits its 512-byte sector. */
  function EncodeDir(es: DirBlock): Sector {
    seq<Byte>(BLOCK_SIZE, k requires 0 <= k < BLOCK_SIZE => EntryByte(es[k / ENTRY_SIZE], k % ENTRY_SIZE))
  }

  /** Byte `off` of entry `i` of a zeroed directory block into which the sector was read. */
  function SlotByte(s: Sector, i: nat, off: nat): Byte {
    var k := ENTRY_SIZE * i + off;
    if k < BLOCK_SIZE then s[k] else 0
  }

  function DecodeEntry(s: Sector, i: nat): Entry {
    Entry(seq<Byte>(MAX_FILENAME, k requires 0 <= k < MAX_FILENAME => SlotByte(s, i, k)),
          SlotByte(s, i, 28) + 256 * SlotByte(s, i, 29) + 65536 * SlotByte(s, i, 30) + 16777216 * SlotByte(s, i, 31),
          SlotByte(s, i, 32))
  }

  function DecodeDir(s: Sector): DirBlock {
    seq<Entry>(MAX_DIR_ENTRIES, i requires 0 <= i < MAX_DIR_ENTRIES => DecodeEntry(s, i))
  }

  lemma EncodedByte(es: DirBlock, i: nat, off: nat)
    requires i < 14 && off < ENTRY_SIZE
    ensures SlotByte(EncodeDir(es), i, off) == EntryByte(es[i], off)
  {
    var k := ENTRY_SIZE * i + off;
    assert k / ENTRY_SIZE == i && k % ENTRY_SIZE == off;
  }

  lemma EntryRoundTrip(s: Sector, i: nat, e: Entry)
    requires forall off | 0 <= off < ENTRY_SIZE :: SlotByte(s, i, off) == EntryByte(e, off)
    ensures DecodeEntry(s, i) == e
  {
    LeRoundTrip(e.inode);
    assert DecodeEntry(s, i).name == e.name;
  }

  /** Entries 0..13 survive the trip to disk; entry 14 comes back unused, naming inode 0. */
  lemma DirRoundTrip(es: DirBlock)
    ensures forall i | 0 <= i < 14 :: DecodeDir(EncodeDir(es))[i] == es[i]
    ensures DecodeDir(EncodeDir(es))[14].inode == 0
    ensures DecodeDir(EncodeDir(es))[14].inUse == 0
  {
    var s := EncodeDir(es);
    LastEntryUnused(s);
    forall i | 0 <= i < 14
      ensures DecodeDir(s)[i] == es[i]
    {
      forall off | 0 <= off < ENTRY_SIZE
        ensures SlotByte(s, i, off) == EntryByte(es[i], off)
      {
        EncodedByte(es, i, off);
      }
      EntryRoundTrip(s, i, es[i]);
    }
  }

  /** Whatever a sector holds, its entry 14 reads back unused. */
  lemma LastEntryUnused(s: Sector)
    ensures DecodeDir(s)[14].inode == 0 && DecodeDir(s)[14].inUse == 0
  {
  }

  // ---------------------------------------------------------------- inode table

  function InodeByte(n: Inode, off: nat): Byte
    requires off < INODE_SIZE
  {
    if off == 0 then n.kind
    else if off < 4 then 0
    else if off < 8 then LeByte(n.size, off - 4)
    else if off < 56 then LeByte(n.blocks[(off - 8) / 4], (off - 8) % 4)
    else LeByte(n.parent, off - 56)
  }

  /** Byte `o` of the `k`-th 512-byte piece of the table; zero past its end. */
  function TableByte(t: InodeTable, k: nat, o: nat): Byte {
    var x := BLOCK_SIZE * k + o;
    if x < TABLE_BYTES then InodeByte(t[x / INODE_SIZE], x % INODE_SIZE) else 0
  }

  /** The `k`-th sector image written by `sync_inode_table`. */
  function TableSector(t: InodeTable, k: nat): Sector {
    seq<Byte>(BLOCK_SIZE, o requires 0 <= o < BLOCK_SIZE => TableByte(t, k, o))
  }

  /** Byte `o` of inode `i` as stored on disk. */
  function StoredByte(d: Disk, i: nat, o: nat): Byte
    requires i < MAX_INODES && o < INODE_SIZE
  {
    var x := INODE_SIZE * i + o;
    d[INODE_TABLE_SECTOR + x / BLOCK_SIZE][x % BLOCK_SIZE]
  }

  type Record = s: seq<Byte> | |s| == INODE_SIZE witness seq<Byte>(INODE_SIZE, _ => 0)

  function StoredRecord(d: Disk, i: nat): Record
    requires i < MAX_INODES
  {
    seq<Byte>(INODE_SIZE, o requires 0 <= o < INODE_SIZE => StoredByte(d, i, o))
  }

  function DecodeInode(bs: Record): Inode {
    Inode(bs[0], Le(bs, 4), seq<U32>(DIRECT_BLOCKS, j requires 0 <= j < DIRECT_BLOCKS => Le(bs, 8 + 4 * j)), Le(bs, 56))
  }

  function LoadInode(d: Disk, i: nat): Inode
    requires i < MAX_INODES
  {
    DecodeInode(StoredRecord(d, i))
  }

  function LoadTable(d: Disk): InodeTable {
    seq<Inode>(MAX_INODES, i requires 0 <= i < MAX_INODES => LoadInode(d, i))
  }

  ghost predicate Images(bs: Record, n: Inode) {
    forall o | 0 <= o < INODE_SIZE :: bs[o] == InodeByte(n, o)
  }

  lemma BlockWord(bs: Record, n: Inode, j: nat)
    requires j < DIRECT_BLOCKS && Images(bs, n)
    ensures Le(bs, 8 + 4 * j) == n.blocks[j]
  {
    forall q | 0 <= q < 4
      ensures bs[8 + 4 * j + q] == LeByte(n.blocks[j], q)
    {
      var o := 8 + 4 * j + q;
      assert (o - 8) / 4 == j && (o - 8) % 4 == q;
      assert bs[o] == InodeByte(n, o);
    }
    LeRoundTrip(n.blocks[j]);
  }

  lemma SizeAndParentWords(bs: Record, n: Inode)
    requires Images(bs, n)
    ensures Le(bs, 4) == n.size && Le(bs, 56) == n.parent && bs[0] == n.kind
  {
    assert bs[0] == InodeByte(n, 0);
    assert bs[4] == InodeByte(n, 4) && bs[5] == InodeByte(n, 5) && bs[6] == InodeByte(n, 6) && bs[7] == InodeByte(n, 7);
    assert bs[56] == InodeByte(n, 56) && bs[57] == InodeByte(n, 57) && bs[58] == InodeByte(n, 58) && bs[59] == InodeByte(n, 59);
    LeRoundTrip(n.size);
    LeRoundTrip(n.parent);
  }

  lemma InodeRoundTrip(bs: Record, n: Inode)
    requires Images(bs, n)
    ensures DecodeInode(bs) == n
  {
    hide Images, InodeByte, Le;
    SizeAndParentWords(bs, n);
    forall j | 0 <= j < DIRECT_BLOCKS
      ensures DecodeInode(bs).blocks[j] == n.blocks[j]
    {
      BlockWord(bs, n, j);
    }
    assert DecodeInode(bs).blocks == n.blocks;
  }

  // ---------------------------------------------------------------- block bitmap

  function Bit(x: bool): (n: nat)
    ensures n < 2 && (n == 1 <==> x)
  {
    if x then 1 else 0
  }

  function Pack(c0: nat, c1: nat, c2: nat, c3: nat, c4: nat, c5: nat, c6: nat, c7: nat): nat {
    c0 + 2 * c1 + 4 * c2 + 8 * c3 + 16 * c4 + 32 * c5 + 64 * c6 + 128 * c7
  }

  function PackByte(bm: Bitmap, k: nat): Byte
    requires k < 64
  {
    Pack(Bit(bm[8 * k]), Bit(bm[8 * k + 1]), Bit(bm[8 * k + 2]), Bit(bm[8 * k + 3]),
         Bit(bm[8 * k + 4]), Bit(bm[8 * k + 5]), Bit(bm[8 * k + 6]), Bit(bm[8 * k + 7]))
  }

  /** `1 << k` */
  function Pow2(k: nat): nat
    requires k < 8
  {
    if k == 0 then 1 else if k == 1 then 2 else if k == 2 then 4 else if k == 3 then 8
    else if k == 4 then 16 else if k == 5 then 32 else if k == 6 then 64 else 128
  }

  function Digit(x: nat, k: nat): nat
    requires k < 8
  {
    x / Pow2(k) % 2
  }

  /** `x & (1 << k)` */
  predicate TestBit(x: Byte, k: nat)
    requires k < 8
  {
    Digit(x, k) == 1
  }

  function BitmapByte(bm: Bitmap, k: nat): Byte {
    if k < 64 then PackByte(bm, k) else 0
  }

  /** The sector image written by `sync_block_bitmap`. */
  function BitmapSector(bm: Bitmap): Sector {
    seq<Byte>(BLOCK_SIZE, k requires 0 <= k < BLOCK_SIZE => BitmapByte(bm, k))
  }

  function LoadBitmap(d: Disk): Bitmap {
    seq<bool>(MAX_BLOCKS, b requires 0 <= b < MAX_BLOCKS => TestBit(d[BLOCK_BITMAP_SECTOR][b / 8], b % 8))
  }

  lemma Halvings(x: nat, c0: nat, c1: nat, c2: nat, c3: nat, c4: nat, c5: nat, c6: nat, c7: nat)
    requires c0 < 2 && c1 < 2 && c2 < 2 && c3 < 2 && c4 < 2 && c5 < 2 && c6 < 2 && c7 < 2
    requires x == c0 + 2 * c1 + 4 * c2 + 8 * c3 + 16 * c4 + 32 * c5 + 64 * c6 + 128 * c7
    ensures
      && x % 2 == c0 && x / 2 % 2 == c1 && x / 4 % 2 == c2 && x / 8 % 2 == c3
      && x / 16 % 2 == c4 && x / 32 % 2 == c5 && x / 64 % 2 == c6 && x / 128 % 2 == c7
  {
    assert x / 2 == c1 + 2 * c2 + 4 * c3 + 8 * c4 + 16 * c5 + 32 * c6 + 64 * c7;
    assert x / 4 == c2 + 2 * c3 + 4 * c4 + 8 * c5 + 16 * c6 + 32 * c7;
    assert x / 8 == c3 + 2 * c4 + 4 * c5 + 8 * c6 + 16 * c7;
    assert x / 16 == c4 + 2 * c5 + 4 * c6 + 8 * c7;
    assert x / 32 == c5 + 2 * c6 + 4 * c7;
    assert x / 64 == c6 + 2 * c7;
    assert x / 128 == c7;
  }

  /** The binary digits of a sum of distinct powers of two. */
  lemma BinaryDigits(c0: nat, c1: nat, c2: nat, c3: nat, c4: nat, c5: nat, c6: nat, c7: nat)
    requires c0 < 2 && c1 < 2 && c2 < 2 && c3 < 2 && c4 < 2 && c5 < 2 && c6 < 2 && c7 < 2
    ensures var x := Pack(c0, c1, c2, c3, c4, c5, c6, c7);
      && Digit(x, 0) == c0 && Digit(x, 1) == c1 && Digit(x, 2) == c2 && Digit(x, 3) == c3
      && Digit(x, 4) == c4 && Digit(x, 5) == c5 && Digit(x, 6) == c6 && Digit(x, 7) == c7
  {
    hide Digit;
    var x := Pack(c0, c1, c2, c3, c4, c5, c6, c7);
    Halvings(x, c0, c1, c2, c3, c4, c5, c6, c7);
    DigitsAre(x);
  }

  lemma DigitsAre(x: nat)
    ensures Digit(x, 0) == x % 2 && Digit(x, 1) == x / 2 % 2 && Digit(x, 2) == x / 4 % 2 && Digit(x, 3) == x / 8 % 2
    ensures Digit(x, 4) == x / 16 % 2 && Digit(x, 5) == x / 32 % 2 && Digit(x, 6) == x / 64 % 2 && Digit(x, 7) == x / 128 % 2
  {
  }

  lemma PackedBits(bm: Bitmap, k: nat)
    requires k < 64
    ensures var x := PackByte(bm, k);
      && TestBit(x, 0) == bm[8 * k] && TestBit(x, 1) == bm[8 * k + 1] && TestBit(x, 2) == bm[8 * k + 2]
      && TestBit(x, 3) == bm[8 * k + 3] && TestBit(x, 4) == bm[8 * k + 4] && TestBit(x, 5) == bm[8 * k + 5]
      && TestBit(x, 6) == bm[8 * k + 6] && TestBit(x, 7) == bm[8 * k + 7]
  {
    hide Bit, Digit, Pack;
    BinaryDigits(Bit(bm[8 * k]), Bit(bm[8 * k + 1]), Bit(bm[8 * k + 2]), Bit(bm[8 * k + 3]),
                 Bit(bm[8 * k + 4]), Bit(bm[8 * k + 5]), Bit(bm[8 * k + 6]), Bit(bm[8 * k + 7]));
  }

  lemma PackedBit(bm: Bitmap, b: nat)
    requires b < MAX_BLOCKS
    ensures TestBit(PackByte(bm, b / 8), b % 8) == bm[b]
  {
    hide PackByte, TestBit;
    PackedBits(bm, b / 8);
    assert b == 8 * (b / 8) + b % 8;
  }

  lemma BitmapRoundTrip(d: Disk, bm: Bitmap)
    requires d[BLOCK_BITMAP_SECTOR] == BitmapSector(bm)
    ensures LoadBitmap(d) == bm
  {
    forall b | 0 <= b < MAX_BLOCKS
      ensures LoadBitmap(d)[b] == bm[b]
    {
      PackedBit(bm, b);
    }
  }

  // ---------------------------------------------------------------- superblock

  function SuperWord(s: Superblock, w: nat): U32
    requires w < 8
  {
    if w == 0 then s.magic else if w == 1 then s.version
    else if w == 2 then s.totalInodes else if w == 3 then s.totalBlocks
    else if w == 4 then s.freeInodes else if w == 5 then s.freeBlocks
    else if w == 6 then s.rootInode else s.installed
  }

  /** The sector image written by `sync_superblock`. */
  function SuperSector(s: Superblock): Sector {
    seq<Byte>(BLOCK_SIZE, k requires 0 <= k < BLOCK_SIZE =>
      if k < 32 then LeByte(SuperWord(s, k / 4), k % 4) else if k < 192 then s.text[k - 32] else 0)
  }

  function LoadSuper(d: Disk): Superblock {
    var s := d[SUPERBLOCK_SECTOR];
    Superblock(Le(s, 0), Le(s, 4), Le(s, 8), Le(s, 12), Le(s, 16), Le(s, 20), Le(s, 24), Le(s, 28), s[32..192])
  }

  lemma SuperWordStored(s: Superblock, w: nat)
    requires w < 8
    ensures Le(SuperSector(s), 4 * w) == SuperWord(s, w)
  {
    var bs := SuperSector(s);
    LeRoundTrip(SuperWord(s, w));
    forall q | 0 <= q < 4
      ensures bs[4 * w + q] == LeByte(SuperWord(s, w), q)
    {
      assert (4 * w + q) / 4 == w && (4 * w + q) % 4 == q;
    }
  }

  lemma SuperRoundTrip(d: Disk, s: Superblock)
    requires d[SUPERBLOCK_SECTOR] == SuperSector(s)
    ensures LoadSuper(d) == s
  {
    hide Le;
    SuperWordStored(s, 0);
    SuperWordStored(s, 1);
    SuperWordStored(s, 2);
    SuperWordStored(s, 3);
    SuperWordStored(s, 4);
    SuperWordStored(s, 5);
    SuperWordStored(s, 6);
    SuperWordStored(s, 7);
    assert SuperSector(s)[32..192] == s.text;
  }
}
