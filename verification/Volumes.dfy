/** The in-memory and on-disk state of fs/filesystem.c and what each operation does to it. */
module Volumes {
  import opened Bytes
  import opened Layout
  import opened Paths

  const NOT_FOUND: U32 := 0xFFFF_FFFF
  const FS_MAGIC: U32 := 0x4550_4853
  const FS_VERSION: U32 := 2

  datatype Volume = Volume(sb: Superblock, inodes: InodeTable, bitmap: Bitmap, disk: Disk)

  /** What the C code reads at `inode_table[i]`; past the table it must not be asked. */
  function KindOf(v: Volume, i: U32): Byte { if i < MAX_INODES then v.inodes[i].kind else FREE }
  function FirstBlock(v: Volume, i: U32): U32 { if i < MAX_INODES then v.inodes[i].blocks[0] else 0 }

  // ---------------------------------------------------------------- blocks

  function MarkUsed(v: Volume, b: U32): Volume {
    if b >= MAX_BLOCKS then v
    else v.(bitmap := v.bitmap[b := true], sb := v.sb.(freeBlocks := Dec(v.sb.freeBlocks)))
  }

  function MarkFree(v: Volume, b: U32): Volume {
    if b >= MAX_BLOCKS then v
    else v.(bitmap := v.bitmap[b := false], sb := v.sb.(freeBlocks := Inc(v.sb.freeBlocks)))
  }

  function FirstClear(bm: Bitmap, i: nat): (b: nat)
    requires i <= MAX_BLOCKS
    ensures i <= b <= MAX_BLOCKS
    ensures b < MAX_BLOCKS ==> !bm[b]
    ensures forall k | i <= k < b :: bm[k]
    decreases |bm| - i
  {
    if i == MAX_BLOCKS || !bm[i] then i else FirstClear(bm, i + 1)
  }

  function AllocateBlock(v: Volume): (Volume, U32) {
    var b := FirstClear(v.bitmap, 0);
    if b < MAX_BLOCKS then (MarkUsed(v, b), b) else (v, NOT_FOUND)
  }

  /** Block 0 and numbers out of range read as zeros and swallow writes. */
  function ReadBlock(v: Volume, b: U32): Sector {
    if b == 0 || b >= MAX_BLOCKS then ZeroSector() else v.disk[DATA_START_SECTOR + b]
  }

  function WriteBlock(v: Volume, b: U32, s: Sector): Volume {
    if b == 0 || b >= MAX_BLOCKS then v else v.(disk := v.disk[DATA_START_SECTOR + b := s])
  }

  // ---------------------------------------------------------------- inodes

  function FirstFree(t: InodeTable, i: nat): (n: nat)
    requires i <= MAX_INODES
    ensures i <= n <= MAX_INODES
    ensures n < MAX_INODES ==> t[n].kind == FREE
    ensures forall k | i <= k < n :: t[k].kind != FREE
    decreases |t| - i
  {
    if i == MAX_INODES || t[i].kind == FREE then i else FirstFree(t, i + 1)
  }

  /** `allocate_inode` followed by the stores of type, size and parent that every caller makes. */
  function NewInode(v: Volume, kind: Byte, size: U32, parent: U32): (Volume, U32) {
    var n := FirstFree(v.inodes, 0);
    if n < MAX_INODES then
      (v.(inodes := v.inodes[n := Inode(kind, size, NoBlocks(), parent)],
          sb := v.sb.(freeInodes := Dec(v.sb.freeInodes))), n)
    else (v, NOT_FOUND)
  }

  /** One turn of the loop of `free_inode`. */
  function ReleaseOne(v: Volume, n: U32, j: nat): Volume
    requires n < MAX_INODES && j < DIRECT_BLOCKS
  {
    var node := v.inodes[n];
    if node.blocks[j] == 0 then v
    else MarkFree(v, node.blocks[j]).(inodes := v.inodes[n := node.(blocks := node.blocks[j := 0])])
  }

  function ReleaseFrom(v: Volume, n: U32, j: nat): Volume
    requires n < MAX_INODES && j <= DIRECT_BLOCKS
    decreases |v.inodes[n].blocks| - j
  {
    if j == DIRECT_BLOCKS then v else ReleaseFrom(ReleaseOne(v, n, j), n, j + 1)
  }

  /** The end of `free_inode`; the parent field stays. */
  function Retire(v: Volume, n: U32): Volume
    requires n < MAX_INODES
  {
    v.(inodes := v.inodes[n := v.inodes[n].(kind := FREE, size := 0)],
       sb := v.sb.(freeInodes := Inc(v.sb.freeInodes)))
  }

  function FreeInode(v: Volume, n: U32): Volume {
    if n >= MAX_INODES then v else Retire(ReleaseFrom(v, n, 0), n)
  }

  /** Allocate a block, record it as block `j` of inode `n` and write its contents. */
  function TakeBlock(v: Volume, n: U32, j: nat, contents: Sector): (Volume, bool)
    requires n < MAX_INODES && j < DIRECT_BLOCKS
  {
    var (w, b) := AllocateBlock(v);
    if b == NOT_FOUND then (v, false)
    else
      var node := w.inodes[n];
      (WriteBlock(w.(inodes := w.inodes[n := node.(blocks := node.blocks[j := b])]), b, contents), true)
  }

  // ---------------------------------------------------------------- directory entries

  predicate Used(e: Entry) { e.inUse == 1 }
  predicate Named(e: Entry, name: Str) { Used(e) && CStr(e.name) == name }

  function Entries(v: Volume, d: U32): DirBlock { DecodeDir(ReadBlock(v, FirstBlock(v, d))) }

  /** The first slot in use under `name`, or 15. */
  function FindSlot(es: DirBlock, name: Str, i: nat := 0): (k: nat)
    requires i <= MAX_DIR_ENTRIES
    ensures i <= k <= MAX_DIR_ENTRIES
    ensures k < MAX_DIR_ENTRIES ==> Named(es[k], name)
    ensures forall q | i <= q < k :: !Named(es[q], name)
    decreases |es| - i
  {
    if i == MAX_DIR_ENTRIES || Named(es[i], name) then i else FindSlot(es, name, i + 1)
  }

  /** The first slot not in use, or 15. */
  function FreeSlot(es: DirBlock, i: nat := 0): (k: nat)
    requires i <= MAX_DIR_ENTRIES
    ensures i <= k <= MAX_DIR_ENTRIES
    ensures k < MAX_DIR_ENTRIES ==> !Used(es[k])
    ensures forall q | i <= q < k :: Used(es[q])
    decreases |es| - i
  {
    if i == MAX_DIR_ENTRIES || !Used(es[i]) then i else FreeSlot(es, i + 1)
  }

  /** The first slot in use naming inode `n`, or 15. */
  function SlotOf(es: DirBlock, n: U32, i: nat := 0): (k: nat)
    requires i <= MAX_DIR_ENTRIES
    ensures i <= k <= MAX_DIR_ENTRIES
    ensures k < MAX_DIR_ENTRIES ==> Used(es[k]) && es[k].inode == n
    ensures forall q | i <= q < k :: !(Used(es[q]) && es[q].inode == n)
    decreases |es| - i
  {
    if i == MAX_DIR_ENTRIES || (Used(es[i]) && es[i].inode == n) then i else SlotOf(es, n, i + 1)
  }

  function Lookup(es: DirBlock, name: Str): U32 {
    var k := FindSlot(es, name);
    if k < MAX_DIR_ENTRIES then es[k].inode else NOT_FOUND
  }

  function AddEntry(v: Volume, p: U32, name: Str, n: U32): (Volume, bool)
    requires |name| < MAX_FILENAME
  {
    var es := Entries(v, p);
    var k := FreeSlot(es);
    if k == MAX_DIR_ENTRIES then (v, false)
    else (WriteBlock(v, FirstBlock(v, p), EncodeDir(es[k := Entry(StrCpy(es[k].name, name), n, 1)])), true)
  }

  function RemoveEntry(v: Volume, p: U32, n: U32): Volume {
    var es := Entries(v, p);
    var k := SlotOf(es, n);
    var es' := if k == MAX_DIR_ENTRIES then es else es[k := Entry(ZeroName(), es[k].inode, 0)];
    WriteBlock(v, FirstBlock(v, p), EncodeDir(es'))
  }

  function NewDirSlot(n: U32, p: U32, i: nat): Entry {
    if i == 0 then Entry(StrCpy(ZeroName(), SELF), n, 1)
    else if i == 1 then Entry(StrCpy(ZeroName(), UP), p, 1)
    else NoEntry()
  }

  /** The first block of a directory `n` made inside `p`. */
  function NewDir(n: U32, p: U32): DirBlock {
    seq<Entry>(MAX_DIR_ENTRIES, i requires 0 <= i < MAX_DIR_ENTRIES => NewDirSlot(n, p, i))
  }

  // ---------------------------------------------------------------- path resolution

  /** Whether the resolver can look inside inode `i`. */
  predicate Searchable(v: Volume, i: U32) {
    i < MAX_INODES && KindOf(v, i) == DIR && FirstBlock(v, i) != 0 && FirstBlock(v, i) < MAX_BLOCKS
  }

  function Step(v: Volume, i: U32, name: Str): U32 {
    if |name| >= MAX_FILENAME || !Searchable(v, i) then NOT_FOUND else Lookup(Entries(v, i), name)
  }

  function Walk(v: Volume, i: U32, cs: Path): U32
    decreases |cs|
  {
    if cs == [] then i
    else
      var next := Step(v, i, cs[0]);
      if next == NOT_FOUND then NOT_FOUND else Walk(v, next, cs[1..])
  }

  function Resolve(v: Volume, cs: Path): U32 { Walk(v, v.sb.rootInode, cs) }

  predicate ResolvesToDir(v: Volume, cs: Path) { Resolve(v, cs) != NOT_FOUND && KindOf(v, Resolve(v, cs)) == DIR }
  predicate ResolvesToFile(v: Volume, cs: Path) { Resolve(v, cs) != NOT_FOUND && KindOf(v, Resolve(v, cs)) == FILE }

  // ---------------------------------------------------------------- disk synchronisation

  function TableOr(d: Disk, t: InodeTable, s: nat): Sector
    requires s < DISK_SECTORS
  {
    if INODE_TABLE_SECTOR <= s < INODE_TABLE_SECTOR + TABLE_SECTORS then TableSector(t, s - INODE_TABLE_SECTOR) else d[s]
  }

  function StoreTable(d: Disk, t: InodeTable): Disk {
    seq<Sector>(DISK_SECTORS, s requires 0 <= s < DISK_SECTORS => TableOr(d, t, s))
  }

  function StoreNodes(d: Disk, t: InodeTable, bm: Bitmap): Disk {
    StoreTable(d, t)[BLOCK_BITMAP_SECTOR := BitmapSector(bm)]
  }

  /** `sync_inode_table` then `sync_block_bitmap` */
  function SyncNodes(v: Volume): Volume { v.(disk := StoreNodes(v.disk, v.inodes, v.bitmap)) }

  function SyncSuper(v: Volume): Volume { v.(disk := v.disk[SUPERBLOCK_SECTOR := SuperSector(v.sb)]) }

  /** `fs_init`: forget memory and load everything from disk. */
  function Reload(d: Disk): Volume { Volume(LoadSuper(d), LoadTable(d), LoadBitmap(d), d) }

  // ---------------------------------------------------------------- operations

  /** A new directory `name` inside inode `p`. */
  function MakeDir(v: Volume, p: U32, name: Str): (Volume, bool)
    requires |name| < MAX_FILENAME
  {
    if KindOf(v, p) != DIR then (v, false) else
    var (v1, n) := NewInode(v, DIR, 0, p);
    if n == NOT_FOUND then (v, false) else
    var (v2, taken) := TakeBlock(v1, n, 0, EncodeDir(NewDir(n, p)));
    if !taken then (FreeInode(v1, n), false) else
    var (v3, added) := AddEntry(v2, p, name, n);
    if !added then (FreeInode(v2, n), false) else
    (SyncNodes(v3), true)
  }

  /** `fs_create_dir`: make the directory and every missing parent; existing paths are left alone. */
  function CreateDir(v: Volume, cs: Path): (Volume, bool)
    decreases |cs|, 0
  {
    if Name(cs) == [] || |Name(cs)| >= MAX_FILENAME then (v, false)
    else if Resolve(v, cs) != NOT_FOUND then (v, true)
    else
      var (w, p) := EnsureDir(v, Parent(cs));
      if p == NOT_FOUND then (w, false) else MakeDir(w, p, Name(cs))
  }

  /** The inode of `cs`, created when it does not resolve. */
  function EnsureDir(v: Volume, cs: Path): (Volume, U32)
    decreases |cs|, 1
  {
    var p := Resolve(v, cs);
    if p != NOT_FOUND then (v, p)
    else
      var (w, ok) := CreateDir(v, cs);
      if !ok then (w, NOT_FOUND) else (w, Resolve(w, cs))
  }

  function BlocksNeeded(size: nat): nat {
    var n := (size + BLOCK_SIZE - 1) / BLOCK_SIZE;
    if n > DIRECT_BLOCKS then DIRECT_BLOCKS else n
  }

  function DataByte(data: seq<Byte>, i: nat, k: nat): Byte {
    var x := BLOCK_SIZE * i + k;
    if x < |data| then data[x] else 0
  }

  /** The `i`-th 512 bytes of `data`, zero-filled. */
  function Chunk(data: seq<Byte>, i: nat): Sector {
    seq<Byte>(BLOCK_SIZE, k requires 0 <= k < BLOCK_SIZE => DataByte(data, i, k))
  }

  function StoreBlocks(v: Volume, n: U32, data: seq<Byte>, i: nat): (Volume, bool)
    requires n < MAX_INODES
    decreases BlocksNeeded(|data|) - i
  {
    if i >= BlocksNeeded(|data|) then (v, true) else
    var (w, taken) := TakeBlock(v, n, i, Chunk(data, i));
    if !taken then (w, false) else StoreBlocks(w, n, data, i + 1)
  }

  /** A new file `name` inside directory `p`. */
  function StoreFile(v: Volume, p: U32, name: Str, data: seq<Byte>): (Volume, bool)
    requires |name| < MAX_FILENAME && |data| <= MAX_FILE_SIZE
  {
    var (v1, n) := NewInode(v, FILE, |data|, p);
    if n == NOT_FOUND then (v, false) else
    var (v2, stored) := StoreBlocks(v1, n, data, 0);
    if !stored then (FreeInode(v2, n), false) else
    var (v3, added) := AddEntry(v2, p, name, n);
    if !added then (FreeInode(v2, n), false) else
    (SyncSuper(SyncNodes(v3)), true)
  }

  /** `fs_delete_file` */
  function DeleteFile(v: Volume, cs: Path): (Volume, bool) {
    var p := Resolve(v, Parent(cs));
    if p == NOT_FOUND || !ResolvesToFile(v, cs) then (v, false)
    else (Discard(v, p, Resolve(v, cs)), true)
  }

  /** The body of a successful delete of file inode `f` listed in `p`. */
  function Discard(v: Volume, p: U32, f: U32): Volume { SyncNodes(RemoveEntry(FreeInode(v, f), p, f)) }

  /** `fs_create_file`: missing parents are made, an old file under the same path is replaced. */
  function CreateFile(v: Volume, cs: Path, data: seq<Byte>): (Volume, bool) {
    if |data| > MAX_FILE_SIZE || Name(cs) == [] || |Name(cs)| >= MAX_FILENAME then (v, false) else
    var (w, p) := EnsureDir(v, Parent(cs));
    if p == NOT_FOUND || KindOf(w, p) != DIR then (w, false) else
    StoreFile(if Resolve(w, cs) != NOT_FOUND then DeleteFile(w, cs).0 else w, p, Name(cs), data)
  }

  function FileByte(v: Volume, n: U32, k: nat): Byte
    requires n < MAX_INODES && k < DIRECT_BLOCKS * BLOCK_SIZE
  {
    ReadBlock(v, v.inodes[n].blocks[k / BLOCK_SIZE])[k % BLOCK_SIZE]
  }

  /** The first `len` stored bytes of inode `n`; nothing is stored beyond its twelve blocks. */
  function Contents(v: Volume, n: U32, len: nat): seq<Byte>
    requires n < MAX_INODES
  {
    seq<Byte>(if len < DIRECT_BLOCKS * BLOCK_SIZE then len else DIRECT_BLOCKS * BLOCK_SIZE,
      k requires 0 <= k < DIRECT_BLOCKS * BLOCK_SIZE => FileByte(v, n, k))
  }

  /** `fs_read_file`: the recorded size, or -1, and the bytes put into the buffer. */
  function ReadFile(v: Volume, cs: Path, max: U32): (int, seq<Byte>) {
    var n := Resolve(v, cs);
    if n == NOT_FOUND || n >= MAX_INODES || v.inodes[n].kind != FILE then (-1, [])
    else
      var size := v.inodes[n].size;
      (size, Contents(v, n, if size > max then max else size))
  }
}
